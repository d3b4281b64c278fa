/** Errors at any depth. A path is a sequence of keys followed from an
    object, each step reading a reference; the walk follows every path from
    its source, and the identity list it shares is never popped. So a call
    throws when a path from its source reaches the source again, the target
    or a listed object, or when two different paths reach the same object. */
module AssignReach {
  import opened JsValues
  import opened ObjectStore
  import opened AssignSpec
  import opened AssignFrame
  import opened AssignErrors

  /** Following the entries at `ks[0]`, `ks[1]`, ... from `nodes[0]` meets the
      objects `nodes[1]`, `nodes[2]`, ...: each step reads a reference. */
  ghost predicate Path(st: Store, nodes: seq<NodeId>, ks: seq<Key>) {
    |nodes| == |ks| + 1 &&
    forall n :: 0 <= n < |ks| ==>
      nodes[n] in st.objects && Lookup(st.objects[nodes[n]], ks[n]) == Ref(nodes[n + 1])
  }

  /** No object strictly inside the path (neither end) is `t`. */
  ghost predicate InnerAvoids(nodes: seq<NodeId>, t: NodeId) {
    forall n :: 0 < n < |nodes| - 1 ==> nodes[n] != t
  }

  /** The path from the second object on. */
  lemma PathTail(st: Store, nodes: seq<NodeId>, ks: seq<Key>)
    requires Path(st, nodes, ks) && |ks| >= 1
    ensures Path(st, nodes[1..], ks[1..])
  {
    forall n | 0 <= n < |ks| - 1
      ensures nodes[1..][n] in st.objects && Lookup(st.objects[nodes[1..][n]], ks[1..][n]) == Ref(nodes[1..][n + 1])
    {
      assert nodes[1..][n] == nodes[n + 1] && ks[1..][n] == ks[n + 1] && nodes[1..][n + 1] == nodes[n + 2];
    }
  }

  /** The first `n` steps of a path. */
  lemma PathPrefix(st: Store, nodes: seq<NodeId>, ks: seq<Key>, n: nat)
    requires Path(st, nodes, ks) && n <= |ks|
    ensures Path(st, nodes[..n + 1], ks[..n])
  {
  }

  /** A path stays a path on a heap where every object on it, except possibly
      its first, is unchanged, and the first has the same entry at the first
      key. */
  lemma PathKept(st: Store, st': Store, t: NodeId, nodes: seq<NodeId>, ks: seq<Key>)
    requires Path(st, nodes, ks) && |ks| >= 1 && InnerAvoids(nodes, t)
    requires UnchangedExcept(st, st', t)
    requires nodes[0] in st'.objects && Lookup(st'.objects[nodes[0]], ks[0]) == Lookup(st.objects[nodes[0]], ks[0])
    ensures Path(st', nodes, ks)
  {
    forall n | 0 <= n < |ks|
      ensures nodes[n] in st'.objects && Lookup(st'.objects[nodes[n]], ks[n]) == Ref(nodes[n + 1])
    {
      if n > 0 {
        assert nodes[n] != t;
      }
    }
  }

  /** A call throws when a path from its source, meeting the target nowhere
      inside, ends at the source, the target or a listed object. */
  lemma {:induction false} CallReaches(st: Store, t: NodeId, a: NodeId, visited: seq<NodeId>, nodes: seq<NodeId>, ks: seq<Key>)
    requires Valid(st) && t in st.objects && VisitedIn(st, visited)
    requires Path(st, nodes, ks) && |ks| >= 1 && nodes[0] == a
    requires nodes[|ks|] in visited + [t, a] && InnerAvoids(nodes, t)
    ensures a in st.objects && AssignWithOneSource(st, t, Ref(a), visited).status.Thrown?
    decreases |ks|, 2, 0
  {
    if t !in visited && a !in visited {
      var keys := GetIterator(st.objects[a]);
      assert Lookup(st.objects[nodes[0]], ks[0]) == Ref(nodes[1]);
      var m :| 0 <= m < |keys| && keys[m] == ks[0];
      assert AssignWithOneSource(st, t, Ref(a), visited) == AssignKeys(st, t, a, keys, 0, visited + [t, a]);
      WalkReaches(st, t, a, keys, 0, visited + [t, a], m, nodes, ks);
    }
  }

  /** The walk from the `i`-th key on throws when a path from the source,
      starting at a key it reaches, ends at a listed object. */
  lemma {:induction false} WalkReaches(st: Store, t: NodeId, a: NodeId, keys: seq<Key>, i: nat, visited: seq<NodeId>, m: nat, nodes: seq<NodeId>, ks: seq<Key>)
    requires Valid(st) && t in st.objects && a in st.objects && VisitedIn(st, visited)
    requires Distinct(keys) && i <= m < |keys|
    requires Path(st, nodes, ks) && |ks| >= 1 && nodes[0] == a && ks[0] == keys[m]
    requires nodes[|ks|] in visited && InnerAvoids(nodes, t)
    ensures AssignKeys(st, t, a, keys, i, visited).status.Thrown?
    decreases |ks|, 1, |keys| - i
  {
    var r1 := AssignKey(st, t, a, keys[i], visited);
    if i == m {
      TurnReaches(st, t, a, keys[i], visited, nodes, ks);
    } else if r1.status.Completed? {
      assert AssignKeys(st, t, a, keys, i, visited) == AssignKeys(r1.store, t, a, keys, i + 1, r1.visited);
      StepKept(st, t, a, keys[i], visited, nodes, ks);
      WalkReaches(r1.store, t, a, keys, i + 1, r1.visited, m, nodes, ks);
    }
  }

  /** The turn for the first key of such a path throws: at once when the next
      object is listed, otherwise inside the fill of the fresh container. */
  lemma {:induction false} TurnReaches(st: Store, t: NodeId, a: NodeId, k: Key, visited: seq<NodeId>, nodes: seq<NodeId>, ks: seq<Key>)
    requires Valid(st) && t in st.objects && a in st.objects && VisitedIn(st, visited)
    requires Path(st, nodes, ks) && |ks| >= 1 && nodes[0] == a && ks[0] == k
    requires nodes[|ks|] in visited && InnerAvoids(nodes, t)
    ensures AssignKey(st, t, a, k, visited).status.Thrown?
    decreases |ks|, 0, 0
  {
    if |ks| == 1 {
      AssignKeyRevisits(st, t, a, k, visited);
    } else {
      var read := Read(st, a, k);
      if read.Ok? {
        assert Lookup(st.objects[nodes[0]], ks[0]) == Ref(nodes[1]);
        var v := read.value;
        var (st1, f) := Construct(st, st.objects[v.id].kind);
        var written := Write(st1, t, k, Ref(f));
        if written.Ok? {
          var st2 := written.value;
          UnvisitedAfterAlloc(st, st2, visited, f);
          assert AssignKey(st, t, a, k, visited) == AssignWithOneSource(st2, f, v, visited);
          assert UnchangedExcept(st, st2, t);
          PathTail(st, nodes, ks);
          var nodes', ks' := nodes[1..], ks[1..];
          assert nodes'[0] != t;
          PathKept(st, st2, t, nodes', ks');
          forall n | 0 < n < |nodes'| - 1 ensures nodes'[n] != f {
            assert nodes'[n] in st.objects;
          }
          CallReaches(st2, f, v.id, visited, nodes', ks');
        }
      }
    }
  }

  /** The first object after the start of a path that lies in `listed`. */
  lemma FirstHit(nodes: seq<NodeId>, ks: seq<Key>, listed: seq<NodeId>) returns (n: nat)
    requires |nodes| == |ks| + 1 && |ks| >= 1 && nodes[|ks|] in listed
    ensures 1 <= n <= |ks| && nodes[n] in listed
    ensures forall j :: 0 < j < n ==> nodes[j] !in listed
  {
    n := 1;
    while nodes[n] !in listed
      invariant 1 <= n <= |ks|
      invariant forall j :: 0 < j < n ==> nodes[j] !in listed
      decreases |ks| - n
    {
      n := n + 1;
    }
  }

  /** Copying one key of the source keeps every path that leaves the source
      by another key and meets the target nowhere inside. */
  lemma StepKept(st: Store, t: NodeId, a: NodeId, k: Key, visited: seq<NodeId>, nodes: seq<NodeId>, ks: seq<Key>)
    requires Valid(st) && t in st.objects && a in st.objects && VisitedIn(st, visited)
    requires Path(st, nodes, ks) && |ks| >= 1 && nodes[0] == a && ks[0] != k && InnerAvoids(nodes, t)
    ensures Path(AssignKey(st, t, a, k, visited).store, nodes, ks)
  {
    var st' := AssignKey(st, t, a, k, visited).store;
    AssignKeyFrame(st, t, a, k, visited);
    AssignKeyKeeps(st, t, a, k, visited, ks[0]);
    SourceEntryKept(st, st', t, a, ks[0]);
    PathKept(st, st', t, nodes, ks);
  }

  /** A call throws when a path of at least one step from its source ends at
      the source itself (a cycle), the target, or an object already on the
      list, at any depth. */
  lemma AssignWithOneSourceReaches(st: Store, t: NodeId, a: NodeId, visited: seq<NodeId>, nodes: seq<NodeId>, ks: seq<Key>)
    requires Valid(st) && t in st.objects && VisitedIn(st, visited)
    requires Path(st, nodes, ks) && |ks| >= 1 && nodes[0] == a
    requires nodes[|ks|] in visited + [t, a]
    ensures a in st.objects && AssignWithOneSource(st, t, Ref(a), visited).status.Thrown?
  {
    var listed := visited + [t, a];
    var n := FirstHit(nodes, ks, listed);
    assert InnerAvoids(nodes[..n + 1], t) by {
      assert t in listed;
    }
    PathPrefix(st, nodes, ks, n);
    CallReaches(st, t, a, visited, nodes[..n + 1], ks[..n]);
  }

  /** A completed call has put on the list every object on a path from its
      source that meets the target nowhere inside. */
  lemma {:induction false} CallVisits(st: Store, t: NodeId, a: NodeId, visited: seq<NodeId>, nodes: seq<NodeId>, ks: seq<Key>)
    requires Valid(st) && t in st.objects && a in st.objects && VisitedIn(st, visited)
    requires Path(st, nodes, ks) && nodes[0] == a && InnerAvoids(nodes, t)
    ensures var r := AssignWithOneSource(st, t, Ref(a), visited);
            r.status.Completed? ==> nodes[|ks|] in r.visited
    decreases |ks|, 2, 0
  {
    if |ks| >= 1 && t !in visited && a !in visited {
      var keys := GetIterator(st.objects[a]);
      assert Lookup(st.objects[nodes[0]], ks[0]) == Ref(nodes[1]);
      var m :| 0 <= m < |keys| && keys[m] == ks[0];
      assert AssignWithOneSource(st, t, Ref(a), visited) == AssignKeys(st, t, a, keys, 0, visited + [t, a]);
      WalkVisits(st, t, a, keys, 0, visited + [t, a], m, nodes, ks);
    }
  }

  lemma {:induction false} WalkVisits(st: Store, t: NodeId, a: NodeId, keys: seq<Key>, i: nat, visited: seq<NodeId>, m: nat, nodes: seq<NodeId>, ks: seq<Key>)
    requires Valid(st) && t in st.objects && a in st.objects && VisitedIn(st, visited)
    requires Distinct(keys) && i <= m < |keys|
    requires Path(st, nodes, ks) && |ks| >= 1 && nodes[0] == a && ks[0] == keys[m] && InnerAvoids(nodes, t)
    ensures var r := AssignKeys(st, t, a, keys, i, visited);
            r.status.Completed? ==> nodes[|ks|] in r.visited
    decreases |ks|, 1, |keys| - i
  {
    var r1 := AssignKey(st, t, a, keys[i], visited);
    if r1.status.Completed? {
      var r := AssignKeys(r1.store, t, a, keys, i + 1, r1.visited);
      assert AssignKeys(st, t, a, keys, i, visited) == r;
      if i == m {
        TurnVisits(st, t, a, keys[i], visited, nodes, ks);
        if r.status.Completed? {
          var j :| 0 <= j < |r1.visited| && r1.visited[j] == nodes[|ks|];
          assert r.visited[j] == nodes[|ks|];
        }
      } else {
        StepKept(st, t, a, keys[i], visited, nodes, ks);
        WalkVisits(r1.store, t, a, keys, i + 1, r1.visited, m, nodes, ks);
      }
    }
  }

  lemma {:induction false} TurnVisits(st: Store, t: NodeId, a: NodeId, k: Key, visited: seq<NodeId>, nodes: seq<NodeId>, ks: seq<Key>)
    requires Valid(st) && t in st.objects && a in st.objects && VisitedIn(st, visited)
    requires Path(st, nodes, ks) && |ks| >= 1 && nodes[0] == a && ks[0] == k && InnerAvoids(nodes, t)
    ensures var r := AssignKey(st, t, a, k, visited);
            r.status.Completed? ==> nodes[|ks|] in r.visited
    decreases |ks|, 0, 0
  {
    if |ks| == 1 {
      assert Lookup(st.objects[nodes[0]], ks[0]) == Ref(nodes[1]);
      AssignKeyVisits(st, t, a, k, visited);
    } else {
      var read := Read(st, a, k);
      if read.Ok? {
        assert Lookup(st.objects[nodes[0]], ks[0]) == Ref(nodes[1]);
        var v := read.value;
        var (st1, f) := Construct(st, st.objects[v.id].kind);
        var written := Write(st1, t, k, Ref(f));
        if written.Ok? {
          var st2 := written.value;
          UnvisitedAfterAlloc(st, st2, visited, f);
          assert AssignKey(st, t, a, k, visited) == AssignWithOneSource(st2, f, v, visited);
          assert UnchangedExcept(st, st2, t);
          PathTail(st, nodes, ks);
          var nodes', ks' := nodes[1..], ks[1..];
          assert nodes'[0] != t;
          PathKept(st, st2, t, nodes', ks');
          forall n | 0 < n < |nodes'| - 1 ensures nodes'[n] != f {
            assert nodes'[n] in st.objects;
          }
          CallVisits(st2, f, v.id, visited, nodes', ks');
        }
      }
    }
  }

  /** A completed call has put on the list every object reachable from its
      source. */
  lemma AssignWithOneSourceVisits(st: Store, t: NodeId, a: NodeId, visited: seq<NodeId>, nodes: seq<NodeId>, ks: seq<Key>)
    requires Valid(st) && t in st.objects && a in st.objects && VisitedIn(st, visited)
    requires Path(st, nodes, ks) && nodes[0] == a
    ensures var r := AssignWithOneSource(st, t, Ref(a), visited);
            r.status.Completed? ==> nodes[|ks|] in r.visited
  {
    if exists n :: 0 < n < |ks| && nodes[n] == t {
      var n :| 0 < n < |ks| && nodes[n] == t;
      PathPrefix(st, nodes, ks, n);
      AssignWithOneSourceReaches(st, t, a, visited, nodes[..n + 1], ks[..n]);
    } else {
      CallVisits(st, t, a, visited, nodes, ks);
    }
  }

  /** A call throws when two different paths from its source, meeting the
      target nowhere inside, end at the same object. */
  lemma {:induction false} CallShared(st: Store, t: NodeId, a: NodeId, visited: seq<NodeId>,
                                      nodes1: seq<NodeId>, ks1: seq<Key>, nodes2: seq<NodeId>, ks2: seq<Key>)
    requires Valid(st) && t in st.objects && a in st.objects && VisitedIn(st, visited)
    requires Path(st, nodes1, ks1) && nodes1[0] == a && InnerAvoids(nodes1, t)
    requires Path(st, nodes2, ks2) && nodes2[0] == a && InnerAvoids(nodes2, t)
    requires nodes1[|ks1|] == nodes2[|ks2|] && ks1 != ks2
    ensures AssignWithOneSource(st, t, Ref(a), visited).status.Thrown?
    decreases |ks1| + |ks2|, 2, 0
  {
    if t !in visited && a !in visited {
      if |ks1| == 0 {
        CallReaches(st, t, a, visited, nodes2, ks2);
      } else if |ks2| == 0 {
        CallReaches(st, t, a, visited, nodes1, ks1);
      } else {
        assert AssignWithOneSource(st, t, Ref(a), visited) == AssignKeys(st, t, a, GetIterator(st.objects[a]), 0, visited + [t, a]);
        WalkShared(st, t, a, visited + [t, a], nodes1, ks1, nodes2, ks2);
      }
    }
  }

  /** Two paths that both take at least one step: pick the keys by which
      they leave the source. */
  lemma {:induction false} WalkShared(st: Store, t: NodeId, a: NodeId, visited: seq<NodeId>,
                                      nodes1: seq<NodeId>, ks1: seq<Key>, nodes2: seq<NodeId>, ks2: seq<Key>)
    requires Valid(st) && t in st.objects && a in st.objects && VisitedIn(st, visited)
    requires Path(st, nodes1, ks1) && |ks1| >= 1 && nodes1[0] == a && InnerAvoids(nodes1, t)
    requires Path(st, nodes2, ks2) && |ks2| >= 1 && nodes2[0] == a && InnerAvoids(nodes2, t)
    requires nodes1[|ks1|] == nodes2[|ks2|] && ks1 != ks2
    ensures AssignKeys(st, t, a, GetIterator(st.objects[a]), 0, visited).status.Thrown?
    decreases |ks1| + |ks2|, 1, |GetIterator(st.objects[a])| + 1
  {
    var keys := GetIterator(st.objects[a]);
    assert Lookup(st.objects[nodes1[0]], ks1[0]) == Ref(nodes1[1]);
    assert Lookup(st.objects[nodes2[0]], ks2[0]) == Ref(nodes2[1]);
    var m1 :| 0 <= m1 < |keys| && keys[m1] == ks1[0];
    var m2 :| 0 <= m2 < |keys| && keys[m2] == ks2[0];
    if m1 <= m2 {
      WalkSharedFrom(st, t, a, keys, 0, visited, m1, m2, nodes1, ks1, nodes2, ks2);
    } else {
      WalkSharedFrom(st, t, a, keys, 0, visited, m2, m1, nodes2, ks2, nodes1, ks1);
    }
  }

  /** Two paths that leave the source by the same key, followed one step:
      the copy made for that key gets the rest of both paths. */
  lemma {:induction false} TurnShared(st: Store, t: NodeId, a: NodeId, k: Key, visited: seq<NodeId>,
                                      nodes1: seq<NodeId>, ks1: seq<Key>, nodes2: seq<NodeId>, ks2: seq<Key>)
    requires Valid(st) && t in st.objects && a in st.objects && VisitedIn(st, visited)
    requires Path(st, nodes1, ks1) && |ks1| >= 1 && nodes1[0] == a && ks1[0] == k && InnerAvoids(nodes1, t)
    requires Path(st, nodes2, ks2) && |ks2| >= 1 && nodes2[0] == a && ks2[0] == k && InnerAvoids(nodes2, t)
    requires nodes1[|ks1|] == nodes2[|ks2|] && ks1 != ks2
    ensures AssignKey(st, t, a, k, visited).status.Thrown?
    decreases |ks1| + |ks2|, 0, 1
  {
    var read := Read(st, a, k);
    if read.Ok? {
      assert Lookup(st.objects[nodes1[0]], ks1[0]) == Ref(nodes1[1]);
      assert Lookup(st.objects[nodes2[0]], ks2[0]) == Ref(nodes2[1]);
      var v := read.value;
      var (st1, f) := Construct(st, st.objects[v.id].kind);
      var written := Write(st1, t, k, Ref(f));
      if written.Ok? {
        var st2 := written.value;
        UnvisitedAfterAlloc(st, st2, visited, f);
        assert AssignKey(st, t, a, k, visited) == AssignWithOneSource(st2, f, v, visited);
        ChildShared(st, st2, t, f, visited, nodes1, ks1, nodes2, ks2);
      }
    }
  }

  /** The fill of the fresh container `f` for the child both paths step to
      first throws: past their common first key the two paths are different
      paths from that child. */
  lemma {:induction false} ChildShared(st: Store, st2: Store, t: NodeId, f: NodeId, visited: seq<NodeId>,
                                       nodes1: seq<NodeId>, ks1: seq<Key>, nodes2: seq<NodeId>, ks2: seq<Key>)
    requires Valid(st2) && f in st2.objects && VisitedIn(st2, visited)
    requires f !in st.objects && UnchangedExcept(st, st2, t)
    requires Path(st, nodes1, ks1) && |ks1| >= 1 && InnerAvoids(nodes1, t)
    requires Path(st, nodes2, ks2) && |ks2| >= 1 && InnerAvoids(nodes2, t)
    requires nodes1[1] == nodes2[1] && nodes1[1] in st2.objects
    requires nodes1[|ks1|] == nodes2[|ks2|] && ks1[0] == ks2[0] && ks1 != ks2
    ensures AssignWithOneSource(st2, f, Ref(nodes1[1]), visited).status.Thrown?
    decreases |ks1| + |ks2|, 0, 0
  {
    var nodes1', ks1' := nodes1[1..], ks1[1..];
    var nodes2', ks2' := nodes2[1..], ks2[1..];
    assert ks1' != ks2' by {
      assert ks1 == [ks1[0]] + ks1' && ks2 == [ks2[0]] + ks2';
    }
    TailKept(st, st2, t, f, nodes1, ks1);
    TailKept(st, st2, t, f, nodes2, ks2);
    CallShared(st2, f, nodes1[1], visited, nodes1', ks1', nodes2', ks2');
  }


  /** The rest of a path after its first step survives a change that touches
      only the target and adds one fresh object, and does not pass through
      that fresh object. */
  lemma TailKept(st: Store, st': Store, t: NodeId, f: NodeId, nodes: seq<NodeId>, ks: seq<Key>)
    requires Path(st, nodes, ks) && |ks| >= 1 && InnerAvoids(nodes, t) && f !in st.objects
    requires UnchangedExcept(st, st', t)
    ensures Path(st', nodes[1..], ks[1..]) && InnerAvoids(nodes[1..], f)
  {
    PathTail(st, nodes, ks);
    if |ks| >= 2 {
      assert nodes[1] != t;
      PathKept(st, st', t, nodes[1..], ks[1..]);
      forall n | 0 < n < |nodes| - 2 ensures nodes[1..][n] != f {
        assert nodes[1..][n] in st.objects;
      }
    }
  }

  /** The walk over the source's keys towards the key `m1` by which the first
      path leaves; the second path leaves by the same key or a later one. */
  lemma {:induction false} WalkSharedFrom(st: Store, t: NodeId, a: NodeId, keys: seq<Key>, i: nat, visited: seq<NodeId>, m1: nat, m2: nat,
                                          nodes1: seq<NodeId>, ks1: seq<Key>, nodes2: seq<NodeId>, ks2: seq<Key>)
    requires Valid(st) && t in st.objects && a in st.objects && VisitedIn(st, visited)
    requires Distinct(keys) && i <= m1 <= m2 < |keys|
    requires Path(st, nodes1, ks1) && |ks1| >= 1 && nodes1[0] == a && ks1[0] == keys[m1] && InnerAvoids(nodes1, t)
    requires Path(st, nodes2, ks2) && |ks2| >= 1 && nodes2[0] == a && ks2[0] == keys[m2] && InnerAvoids(nodes2, t)
    requires nodes1[|ks1|] == nodes2[|ks2|] && ks1 != ks2
    ensures AssignKeys(st, t, a, keys, i, visited).status.Thrown?
    decreases |ks1| + |ks2|, 1, |keys| - i
  {
    var r1 := AssignKey(st, t, a, keys[i], visited);
    if i == m1 && m1 == m2 {
      TurnShared(st, t, a, keys[i], visited, nodes1, ks1, nodes2, ks2);
    } else if i == m1 {
      SplitAt(st, t, a, keys, visited, m1, m2, nodes1, ks1, nodes2, ks2);
    } else if r1.status.Completed? {
      assert AssignKeys(st, t, a, keys, i, visited) == AssignKeys(r1.store, t, a, keys, i + 1, r1.visited);
      StepKept(st, t, a, keys[i], visited, nodes1, ks1);
      StepKept(st, t, a, keys[i], visited, nodes2, ks2);
      WalkSharedFrom(r1.store, t, a, keys, i + 1, r1.visited, m1, m2, nodes1, ks1, nodes2, ks2);
    }
  }

  /** The walk at key `m1`: copying it lists the shared end, and the walk
      then meets that end again under key `m2`. */
  lemma SplitAt(st: Store, t: NodeId, a: NodeId, keys: seq<Key>, visited: seq<NodeId>, m1: nat, m2: nat,
                nodes1: seq<NodeId>, ks1: seq<Key>, nodes2: seq<NodeId>, ks2: seq<Key>)
    requires Valid(st) && t in st.objects && a in st.objects && VisitedIn(st, visited)
    requires Distinct(keys) && m1 < m2 < |keys|
    requires Path(st, nodes1, ks1) && |ks1| >= 1 && nodes1[0] == a && ks1[0] == keys[m1] && InnerAvoids(nodes1, t)
    requires Path(st, nodes2, ks2) && |ks2| >= 1 && nodes2[0] == a && ks2[0] == keys[m2] && InnerAvoids(nodes2, t)
    requires nodes1[|ks1|] == nodes2[|ks2|]
    ensures AssignKeys(st, t, a, keys, m1, visited).status.Thrown?
  {
    var r1 := AssignKey(st, t, a, keys[m1], visited);
    if r1.status.Completed? {
      assert AssignKeys(st, t, a, keys, m1, visited) == AssignKeys(r1.store, t, a, keys, m1 + 1, r1.visited);
      StepKept(st, t, a, keys[m1], visited, nodes2, ks2);
      TurnVisits(st, t, a, keys[m1], visited, nodes1, ks1);
      WalkReaches(r1.store, t, a, keys, m1 + 1, r1.visited, m2, nodes2, ks2);
    }
  }

  /** A call throws when two different paths from its source end at the same
      object: an object shared at any depth, or a cycle back to an object on
      the way. */
  lemma AssignWithOneSourceShares(st: Store, t: NodeId, a: NodeId, visited: seq<NodeId>,
                                  nodes1: seq<NodeId>, ks1: seq<Key>, nodes2: seq<NodeId>, ks2: seq<Key>)
    requires Valid(st) && t in st.objects && a in st.objects && VisitedIn(st, visited)
    requires Path(st, nodes1, ks1) && nodes1[0] == a
    requires Path(st, nodes2, ks2) && nodes2[0] == a
    requires nodes1[|ks1|] == nodes2[|ks2|] && ks1 != ks2
    ensures AssignWithOneSource(st, t, Ref(a), visited).status.Thrown?
  {
    if exists n :: 0 < n < |ks1| && nodes1[n] == t {
      var n :| 0 < n < |ks1| && nodes1[n] == t;
      PathPrefix(st, nodes1, ks1, n);
      AssignWithOneSourceReaches(st, t, a, visited, nodes1[..n + 1], ks1[..n]);
    } else if exists n :: 0 < n < |ks2| && nodes2[n] == t {
      var n :| 0 < n < |ks2| && nodes2[n] == t;
      PathPrefix(st, nodes2, ks2, n);
      AssignWithOneSourceReaches(st, t, a, visited, nodes2[..n + 1], ks2[..n]);
    } else {
      CallShared(st, t, a, visited, nodes1, ks1, nodes2, ks2);
    }
  }
}
