/** The fold over the sources: strictly left to right, skipping anything that
    is not an object, each source with a visited list of its own, and no
    rollback when a source throws. */
module AssignFold {
  import opened JsValues
  import opened ObjectStore
  import opened AssignSpec
  import opened AssignFrame
  import opened AssignCopy
  import opened AssignErrors
  import opened AssignReach
  import opened AssignTree

  /** Order: applying `a + b` is applying `a`, then, unless that threw,
      applying `b` to the heap `a` left. */
  lemma {:induction false} AssignSourcesAppend(st: Store, t: NodeId, a: seq<Value>, b: seq<Value>)
    requires Valid(st) && t in st.objects && ValuesIn(st, a + b)
    ensures ValuesIn(st, a) && ValuesIn(st, b)
    ensures var ra := AssignSources(st, t, a);
            ra.1.Thrown? ==> AssignSources(st, t, a + b) == ra
    ensures var ra := AssignSources(st, t, a);
            ra.1 == Completed ==> ValuesIn(ra.0, b) && AssignSources(st, t, a + b) == AssignSources(ra.0, t, b)
    decreases |a|
  {
    assert forall i :: 0 <= i < |a| ==> (a + b)[i] == a[i];
    assert forall i :: 0 <= i < |b| ==> (a + b)[|a| + i] == b[i];
    if a == [] {
      assert a + b == b;
    } else {
      assert (a + b)[1..] == a[1..] + b;
      if IsObject(a[0]) {
        assert ValueIn(st, a[0]);
        var r := AssignWithOneSource(st, t, a[0], []);
        if r.status.Completed? {
          ValuesInGrows(st, r.store, a + b);
          assert AssignSources(st, t, a) == AssignSources(r.store, t, a[1..]);
          assert AssignSources(st, t, a + b) == AssignSources(r.store, t, a[1..] + b);
          AssignSourcesAppend(r.store, t, a[1..], b);
        }
      } else {
        assert AssignSources(st, t, a) == AssignSources(st, t, a[1..]);
        assert AssignSources(st, t, a + b) == AssignSources(st, t, a[1..] + b);
        AssignSourcesAppend(st, t, a[1..], b);
      }
    }
  }

  /** The sources that are objects, in their order. */
  function ObjectSources(vs: seq<Value>): (r: seq<Value>)
    ensures |r| <= |vs|
    ensures forall i :: 0 <= i < |r| ==> IsObject(r[i]) && r[i] in vs
    ensures forall v :: v in vs && IsObject(v) ==> v in r
  {
    if vs == [] then []
    else if IsObject(vs[0]) then [vs[0]] + ObjectSources(vs[1..])
    else ObjectSources(vs[1..])
  }

  /** Sources that are not objects (null, undefined, primitives) are skipped:
      the outcome is that of the object sources alone. */
  lemma {:induction false} AssignSourcesSkips(st: Store, t: NodeId, vs: seq<Value>)
    requires Valid(st) && t in st.objects && ValuesIn(st, vs)
    ensures ValuesIn(st, ObjectSources(vs))
    ensures AssignSources(st, t, vs) == AssignSources(st, t, ObjectSources(vs))
    decreases |vs|
  {
    var os := ObjectSources(vs);
    forall i | 0 <= i < |os| ensures ValueIn(st, os[i]) {
      var j :| 0 <= j < |vs| && vs[j] == os[i];
    }
    if vs != [] {
      assert ValuesIn(st, vs[1..]);
      if IsObject(vs[0]) {
        assert ValueIn(st, vs[0]);
        assert os[0] == vs[0] && os[1..] == ObjectSources(vs[1..]);
        var r := AssignWithOneSource(st, t, vs[0], []);
        if r.status.Completed? {
          ValuesInGrows(st, r.store, vs[1..]);
          AssignSourcesSkips(r.store, t, vs[1..]);
        }
      } else {
        AssignSourcesSkips(st, t, vs[1..]);
      }
    }
  }

  /** The fold changes no object live before it but the target, which keeps
      its kind and key order, whatever the outcome. */
  lemma {:induction false} AssignSourcesFrame(st: Store, t: NodeId, vs: seq<Value>)
    requires Valid(st) && t in st.objects && ValuesIn(st, vs)
    ensures var r := AssignSources(st, t, vs);
            UnchangedExcept(st, r.0, t) && TargetKept(st, r.0, t)
    decreases |vs|
  {
    if vs != [] {
      assert ValuesIn(st, vs[1..]);
      if IsObject(vs[0]) {
        assert ValueIn(st, vs[0]);
        var r := AssignWithOneSource(st, t, vs[0], []);
        AssignWithOneSourceFrame(st, t, vs[0], []);
        if r.status.Completed? {
          ValuesInGrows(st, r.store, vs[1..]);
          AssignSourcesFrame(r.store, t, vs[1..]);
        }
      } else {
        AssignSourcesFrame(st, t, vs[1..]);
      }
    }
  }

  /** Keys that no source has survive: a key of the target (or of an earlier
      source) that none of these sources has keeps its entry, even when one of
      them throws, since nothing is rolled back. The sources must not be the
      target itself, whose keys grow as it is written. */
  lemma {:induction false} AssignSourcesKeeps(st: Store, t: NodeId, vs: seq<Value>, k: Key)
    requires Valid(st) && t in st.objects && ValuesIn(st, vs)
    requires forall i :: 0 <= i < |vs| && vs[i].Ref? ==> vs[i].id != t && k !in st.objects[vs[i].id].props
    ensures SameEntry(st, AssignSources(st, t, vs).0, t, k)
    decreases |vs|
  {
    if vs != [] {
      assert ValuesIn(st, vs[1..]);
      if IsObject(vs[0]) {
        assert ValueIn(st, vs[0]);
        var r := AssignWithOneSource(st, t, vs[0], []);
        AssignWithOneSourceKeeps(st, t, vs[0], [], k);
        if r.status.Completed? {
          AssignWithOneSourceFrame(st, t, vs[0], []);
          ValuesInGrows(st, r.store, vs[1..]);
          forall i | 0 <= i < |vs[1..]| && vs[1..][i].Ref?
            ensures vs[1..][i].id != t && k !in r.store.objects[vs[1..][i].id].props
          {
            assert vs[1..][i] == vs[i + 1];
          }
          AssignSourcesKeeps(r.store, t, vs[1..], k);
        }
      } else {
        AssignSourcesKeeps(st, t, vs[1..], k);
      }
    }
  }

  /** Last source wins: after a fold that completes, the target holds at each
      key of the last source the copy of that source's value there, whatever
      earlier sources wrote at that key. */
  lemma LastSourceWins(st: Store, t: NodeId, vs: seq<Value>, s: Value, k: Key)
    requires Valid(st) && t in st.objects && ValuesIn(st, vs + [s])
    requires s.Ref? && s.id in st.objects && s.id != t && k in st.objects[s.id].props
    ensures var r := AssignSources(st, t, vs + [s]);
            r.1 == Completed ==> Copied(st, r.0, t, k, st.objects[s.id].props[k])
  {
    AssignSourcesAppend(st, t, vs, [s]);
    var ra := AssignSources(st, t, vs);
    if ra.1 == Completed {
      AssignSourcesFrame(st, t, vs);
      assert ra.0.objects[s.id] == st.objects[s.id];
      var r1 := AssignWithOneSource(ra.0, t, s, []);
      AssignSourcesSingle(ra.0, t, s);
      AssignWithOneSourceCopies(ra.0, t, s, [], k);
      if r1.status == Completed {
        assert ValueIn(st, st.objects[s.id].props[k]);
        CopiedEarlier(st, ra.0, r1.store, t, k, st.objects[s.id].props[k]);
      }
    }
  }

  /** An object whose entries are all primitives. */
  ghost predicate Flat(o: JsObject) {
    forall k :: k in o.props ==> !IsObject(o.props[k])
  }

  /** A walk over a flat source other than the target, neither being a Set,
      never throws. */
  lemma {:induction false} AssignKeysFlat(st: Store, t: NodeId, s: NodeId, keys: seq<Key>, i: nat, visited: seq<NodeId>)
    requires Valid(st) && t in st.objects && s in st.objects && VisitedIn(st, visited)
    requires i <= |keys|
    requires s != t && Flat(st.objects[s]) && !IsSet(st.objects[s]) && !IsSet(st.objects[t])
    ensures AssignKeys(st, t, s, keys, i, visited).status == Completed
    decreases |keys| - i
  {
    if i < |keys| {
      var r1 := AssignKey(st, t, s, keys[i], visited);
      AssignKeyCopies(st, t, s, keys[i], visited);
      AssignKeyFrame(st, t, s, keys[i], visited);
      assert AssignKeys(st, t, s, keys, i, visited) == AssignKeys(r1.store, t, s, keys, i + 1, r1.visited);
      AssignKeysFlat(r1.store, t, s, keys, i + 1, r1.visited);
    }
  }

  /** A call on a flat source other than the target, neither being a Set and
      neither yet visited, completes. */
  lemma AssignWithOneSourceFlat(st: Store, t: NodeId, s: Value, visited: seq<NodeId>)
    requires Valid(st) && t in st.objects && VisitedIn(st, visited)
    requires s.Ref? && s.id in st.objects && s.id != t && t !in visited && s.id !in visited
    requires Flat(st.objects[s.id]) && !IsSet(st.objects[s.id]) && !IsSet(st.objects[t])
    ensures AssignWithOneSource(st, t, s, visited).status == Completed
  {
    UnvisitedAfterPush(st, visited, t, s.id);
    AssignKeysFlat(st, t, s.id, GetIterator(st.objects[s.id]), 0, visited + [t, s.id]);
  }

  /** A single object source is one call with an empty visited list. */
  lemma AssignSourcesSingle(st: Store, t: NodeId, s: Value)
    requires Valid(st) && t in st.objects && s.Ref? && s.id in st.objects
    ensures ValuesIn(st, [s])
    ensures var r := AssignWithOneSource(st, t, s, []);
            AssignSources(st, t, [s]) == (r.store, r.status)
  {
    assert [s][1..] == [];
  }

  /** The visited list is per source: the same object given twice as a
      source completes when the objects it reaches form a tree that avoids
      the target, whereas carrying the first call's list into the second call
      would throw the circular-reference error. */
  lemma SameSourceTwice(st: Store, t: NodeId, sh: Shape)
    requires Valid(st) && t in st.objects && NoSets(st)
    requires IsTree(st, sh) && t !in Ids(sh)
    ensures var s := Ref(sh.id);
            ValuesIn(st, [s, s]) && AssignSources(st, t, [s, s]).1 == Completed
    ensures var r := AssignWithOneSource(st, t, Ref(sh.id), []);
            r.status == Completed && AssignWithOneSource(r.store, t, Ref(sh.id), r.visited).status == Thrown(CircularReference)
  {
    var s := Ref(sh.id);
    AssignWithOneSourceTree(st, t, sh);
    AssignWithOneSourceFrame(st, t, s, []);
    var r := AssignWithOneSource(st, t, s, []);
    TreeKept(st, r.store, t, sh);
    SameSourceTwiceFold(st, t, sh, r);
  }

  lemma SameSourceTwiceFold(st: Store, t: NodeId, sh: Shape, r: Outcome)
    requires Valid(st) && t in st.objects && sh.id in st.objects
    requires r == AssignWithOneSource(st, t, Ref(sh.id), []) && r.status == Completed
    requires NoSets(r.store) && IsTree(r.store, sh) && t !in Ids(sh)
    ensures var s := Ref(sh.id);
            ValuesIn(st, [s, s]) && AssignSources(st, t, [s, s]).1 == Completed
  {
    var s := Ref(sh.id);
    AssignWithOneSourceTree(r.store, t, sh);
    AssignSourcesSingle(st, t, s);
    AssignSourcesSingle(r.store, t, s);
    assert [s] + [s] == [s, s];
    AssignSourcesAppend(st, t, [s], [s]);
  }

  /** Boxing a primitive target adds one fresh plain object and leaves every
      other object, hence every path between them, as it was. */
  lemma BoxKeeps(st: Store, target: Value, nodes: seq<NodeId>, ks: seq<Key>)
    requires Valid(st) && ValueIn(st, target) && NoSets(st)
    ensures var (st1, t) := Box(st, target);
            NoSets(st1) && UnchangedExcept(st, st1, t) && (Path(st, nodes, ks) ==> Path(st1, nodes, ks))
  {
    var (st1, t) := Box(st, target);
    assert NoSets(st1);
    if Path(st, nodes, ks) {
      forall n | 0 <= n < |ks|
        ensures nodes[n] in st1.objects && Lookup(st1.objects[nodes[n]], ks[n]) == Ref(nodes[n + 1])
      {
        assert nodes[n] in st.objects;
      }
    }
  }

  /** deepAssign on a heap without Sets, given one source whose reachable
      objects form a tree that does not hold the target, completes. */
  lemma DeepAssignTree(st: Store, target: Value, sh: Shape)
    requires Valid(st) && ValueIn(st, target) && NoSets(st)
    requires IsTree(st, sh) && !(IsObject(target) && target.id in Ids(sh))
    ensures ValuesIn(st, [Ref(sh.id)]) && DeepAssign(st, target, [Ref(sh.id)]).status == Completed
  {
    var (st1, t) := Box(st, target);
    BoxKeepsTree(st, target, sh);
    AssignWithOneSourceTree(st1, t, sh);
    DeepAssignSingle(st, target, Ref(sh.id));
  }

  /** deepAssign with one object source is one call, with a fresh list, on
      the boxed target. */
  lemma DeepAssignSingle(st: Store, target: Value, s: Value)
    requires Valid(st) && ValueIn(st, target) && s.Ref? && s.id in st.objects
    ensures var (st1, t) := Box(st, target);
            ValuesIn(st, [s]) && s.id in st1.objects &&
            DeepAssign(st, target, [s]).status == AssignWithOneSource(st1, t, s, []).status
  {
    var (st1, t) := Box(st, target);
    AssignSourcesSingle(st1, t, s);
  }

  /** The tree is still one, and still avoids the target, once the target is
      boxed. */
  lemma BoxKeepsTree(st: Store, target: Value, sh: Shape)
    requires Valid(st) && ValueIn(st, target) && NoSets(st)
    requires IsTree(st, sh) && !(IsObject(target) && target.id in Ids(sh))
    ensures var (st1, t) := Box(st, target);
            sh.id in st.objects && NoSets(st1) && IsTree(st1, sh) && t !in Ids(sh)
  {
    var (st1, t) := Box(st, target);
    IdsLive(st, sh);
    BoxKeeps(st, target, [], []);
    TreeKept(st, st1, t, sh);
  }

  /** deepAssign on a heap without Sets throws the circular-reference error
      when its source reaches, along a path of one or more keys, the source
      itself or the object given as the target. */
  lemma DeepAssignCircular(st: Store, target: Value, s: Value, nodes: seq<NodeId>, ks: seq<Key>)
    requires Valid(st) && ValueIn(st, target) && NoSets(st)
    requires s.Ref? && Path(st, nodes, ks) && |ks| >= 1 && nodes[0] == s.id
    requires nodes[|ks|] == s.id || (IsObject(target) && nodes[|ks|] == target.id)
    ensures ValuesIn(st, [s]) && DeepAssign(st, target, [s]).status == Thrown(CircularReference)
  {
    var (st1, t) := Box(st, target);
    BoxKeeps(st, target, nodes, ks);
    DeepAssignSingle(st, target, s);
    AssignWithOneSourceReaches(st1, t, s.id, [], nodes, ks);
    AssignWithOneSourceErrors(st1, t, s, []);
  }

  /** deepAssign on a heap without Sets throws the circular-reference error
      when its source reaches one object along two different key paths. */
  lemma DeepAssignShared(st: Store, target: Value, s: Value,
                         nodes1: seq<NodeId>, ks1: seq<Key>, nodes2: seq<NodeId>, ks2: seq<Key>)
    requires Valid(st) && ValueIn(st, target) && NoSets(st) && s.Ref? && s.id in st.objects
    requires Path(st, nodes1, ks1) && nodes1[0] == s.id
    requires Path(st, nodes2, ks2) && nodes2[0] == s.id
    requires nodes1[|ks1|] == nodes2[|ks2|] && ks1 != ks2
    ensures ValuesIn(st, [s]) && DeepAssign(st, target, [s]).status == Thrown(CircularReference)
  {
    var (st1, t) := Box(st, target);
    BoxKeeps(st, target, nodes1, ks1);
    BoxKeeps(st, target, nodes2, ks2);
    DeepAssignSingle(st, target, s);
    AssignWithOneSourceShares(st1, t, s.id, [], nodes1, ks1, nodes2, ks2);
    AssignWithOneSourceErrors(st1, t, s, []);
  }
}
