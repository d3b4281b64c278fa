/** Completion at any depth. On a heap without Sets, a source whose reachable
    objects form a tree (no cycle, no object held twice) that avoids the
    target and the identity list is copied without an error, and the list it
    leaves holds only what was listed before, the target, fresh copies and
    objects of the tree. */
module AssignTree {
  import opened JsValues
  import opened ObjectStore
  import opened AssignSpec
  import opened AssignFrame

  /** The shape of what an object reaches: the object, and for each key at
      which it holds a reference, the shape below that reference. */
  datatype Shape = Shape(id: NodeId, kids: map<Key, Shape>)

  /** The objects of a shape. */
  ghost function Ids(sh: Shape): set<NodeId>
    decreases sh
  {
    {sh.id} + set k, x | k in sh.kids && x in Ids(sh.kids[k]) :: x
  }

  /** `sh` is what `sh.id` reaches in `st`, and it is a tree: every key
      holding a reference has its subtree, no subtree holds its parent, and
      the subtrees of two different keys share no object. */
  ghost predicate IsTree(st: Store, sh: Shape)
    decreases sh
  {
    sh.id in st.objects &&
    (forall k :: Lookup(st.objects[sh.id], k).Ref? <==> k in sh.kids) &&
    (forall k :: k in sh.kids ==>
       Lookup(st.objects[sh.id], k) == Ref(sh.kids[k].id) && IsTree(st, sh.kids[k]) && sh.id !in Ids(sh.kids[k])) &&
    (forall k1, k2 :: k1 in sh.kids && k2 in sh.kids && k1 != k2 ==> Ids(sh.kids[k1]) !! Ids(sh.kids[k2]))
  }

  /** No object of `ids` is on the list. */
  ghost predicate Unlisted(ids: set<NodeId>, visited: seq<NodeId>) {
    forall x :: x in ids ==> x !in visited
  }

  /** Everything on the list `vis` was on the list `before`, is in `also`, or
      was not live in `st`. */
  ghost predicate ListsWithin(vis: seq<NodeId>, before: seq<NodeId>, also: set<NodeId>, st: Store) {
    forall x :: x in vis ==> x in before || x in also || x !in st.objects
  }

  lemma KidIds(sh: Shape, k: Key)
    requires k in sh.kids
    ensures Ids(sh.kids[k]) <= Ids(sh)
  {
  }

  /** Every object of a tree is live. */
  lemma {:induction false} IdsLive(st: Store, sh: Shape)
    requires IsTree(st, sh)
    ensures Ids(sh) <= st.objects.Keys
    decreases sh
  {
    forall k | k in sh.kids
      ensures Ids(sh.kids[k]) <= st.objects.Keys
    {
      IdsLive(st, sh.kids[k]);
    }
  }

  /** A tree that avoids `t` stays a tree on a heap that changed only at `t`. */
  lemma {:induction false} TreeKept(st0: Store, st: Store, t: NodeId, sh: Shape)
    requires IsTree(st0, sh) && t !in Ids(sh) && UnchangedExcept(st0, st, t)
    ensures IsTree(st, sh)
    decreases sh
  {
    assert st.objects[sh.id] == st0.objects[sh.id];
    forall k | k in sh.kids
      ensures IsTree(st, sh.kids[k])
    {
      KidIds(sh, k);
      TreeKept(st0, st, t, sh.kids[k]);
    }
  }

  /** A call on a heap without Sets whose source is the root of a tree
      avoiding the target and the list completes, and lists only what was
      listed, the target, objects of the tree and fresh copies. */
  lemma {:induction false} CallTree(st: Store, t: NodeId, sh: Shape, visited: seq<NodeId>)
    requires Valid(st) && t in st.objects && VisitedIn(st, visited) && NoSets(st)
    requires IsTree(st, sh) && t !in Ids(sh) && t !in visited
    requires Unlisted(Ids(sh), visited)
    ensures var r := AssignWithOneSource(st, t, Ref(sh.id), visited);
            r.status.Completed? && ListsWithin(r.visited, visited, Ids(sh) + {t}, st)
    decreases |Unvisited(st, visited)|, 1, 0
  {
    var a := sh.id;
    var listed := visited + [t, a];
    RootListed(st, sh, t, visited);
    UnvisitedAfterPush(st, visited, t, a);
    var keys := GetIterator(st.objects[a]);
    assert AssignWithOneSource(st, t, Ref(a), visited) == AssignKeys(st, t, a, keys, 0, listed);
    KidsUnlisted(st, sh, t, visited);
    WalkTree(st, st, t, sh, keys, 0, listed);
    var r := AssignKeys(st, t, a, keys, 0, listed);
    forall x | x in r.visited
      ensures x in visited || x in Ids(sh) + {t} || x !in st.objects
    {
      if x in listed {
        assert x in visited || x in [t, a];
      }
    }
    assert ListsWithin(r.visited, visited, Ids(sh) + {t}, st);
  }

  /** A call with a fresh list, on a source whose reachable objects form a
      tree that avoids the target, completes. */
  lemma AssignWithOneSourceTree(st: Store, t: NodeId, sh: Shape)
    requires Valid(st) && t in st.objects && NoSets(st)
    requires IsTree(st, sh) && t !in Ids(sh)
    ensures sh.id in st.objects && AssignWithOneSource(st, t, Ref(sh.id), []).status == Completed
  {
    RootListed(st, sh, t, []);
    CallTree(st, t, sh, []);
  }

  /** The root is live and not listed, and listing the target and the root
      keeps the list within the heap. */
  lemma RootListed(st: Store, sh: Shape, t: NodeId, visited: seq<NodeId>)
    requires IsTree(st, sh) && t in st.objects && VisitedIn(st, visited) && Unlisted(Ids(sh), visited)
    ensures sh.id in st.objects && sh.id in Ids(sh) && sh.id !in visited && VisitedIn(st, visited + [t, sh.id])
  {
    assert sh.id in Ids(sh);
  }

  /** Once the target and the root are listed, no subtree of the root is. */
  lemma KidsUnlisted(st: Store, sh: Shape, t: NodeId, visited: seq<NodeId>)
    requires IsTree(st, sh) && t !in Ids(sh) && Unlisted(Ids(sh), visited)
    ensures forall k :: k in sh.kids ==> Unlisted(Ids(sh.kids[k]), visited + [t, sh.id])
  {
    forall k | k in sh.kids
      ensures Unlisted(Ids(sh.kids[k]), visited + [t, sh.id])
    {
      KidIds(sh, k);
    }
  }

  /** The loop over the root's keys from the `i`-th on, on a heap `st` that
      differs from the heap `st0` at the call's start only at the target:
      the subtrees of the keys still to come are not listed. */
  lemma {:induction false} WalkTree(st0: Store, st: Store, t: NodeId, sh: Shape, keys: seq<Key>, i: nat, visited: seq<NodeId>)
    requires Valid(st0) && t in st0.objects && IsTree(st0, sh) && t !in Ids(sh)
    requires Valid(st) && t in st.objects && VisitedIn(st, visited) && NoSets(st)
    requires UnchangedExcept(st0, st, t)
    requires Distinct(keys) && i <= |keys|
    requires forall j :: i <= j < |keys| && keys[j] in sh.kids ==> Unlisted(Ids(sh.kids[keys[j]]), visited)
    ensures sh.id in st.objects
    ensures var r := AssignKeys(st, t, sh.id, keys, i, visited);
            r.status.Completed? &&
            forall x :: x in r.visited ==> x in visited || x in Ids(sh) || x !in st0.objects
    decreases |Unvisited(st, visited)| + 1, 2, 2 * (|keys| - i) + 1
  {
    if i < |keys| {
      var k := keys[i];
      var r1 := AssignKey(st, t, sh.id, k, visited);
      TurnTree(st0, st, t, sh, k, visited);
      assert AssignKeys(st, t, sh.id, keys, i, visited) == AssignKeys(r1.store, t, sh.id, keys, i + 1, r1.visited);
      CardSubset(Unvisited(r1.store, r1.visited), Unvisited(st, visited));
      AssignKeyFrame(st, t, sh.id, k, visited);
      forall j | i + 1 <= j < |keys| && keys[j] in sh.kids
        ensures Unlisted(Ids(sh.kids[keys[j]]), r1.visited)
      {
        IdsLive(st0, sh.kids[keys[j]]);
        assert keys[j] != k;
      }
      if k in sh.kids {
        KidIds(sh, k);
      }
      WalkTree(st0, r1.store, t, sh, keys, i + 1, r1.visited);
    }
  }

  /** One turn of the loop at key `k`, when the subtree at `k` is not listed:
      it completes, and lists only objects of that subtree and fresh copies. */
  lemma {:induction false} TurnTree(st0: Store, st: Store, t: NodeId, sh: Shape, k: Key, visited: seq<NodeId>)
    requires Valid(st0) && t in st0.objects && IsTree(st0, sh) && t !in Ids(sh)
    requires Valid(st) && t in st.objects && VisitedIn(st, visited) && NoSets(st)
    requires UnchangedExcept(st0, st, t)
    requires k in sh.kids ==> Unlisted(Ids(sh.kids[k]), visited)
    ensures sh.id in st.objects
    ensures var r := AssignKey(st, t, sh.id, k, visited);
            r.status.Completed? &&
            forall x :: x in r.visited ==> x in visited || x !in st0.objects || (k in sh.kids && x in Ids(sh.kids[k]))
    decreases |Unvisited(st, visited)| + 1, 2, 1
  {
    assert st.objects[sh.id] == st0.objects[sh.id];
    if k in sh.kids {
      KidIds(sh, k);
      CopyKid(st0, st, t, sh.id, k, sh.kids[k], visited);
    }
  }

  /** The turn at a key holding the root of a subtree: a fresh copy goes into
      the target, and the call on the subtree completes. */
  lemma {:induction false} CopyKid(st0: Store, st: Store, t: NodeId, a: NodeId, k: Key, kid: Shape, visited: seq<NodeId>)
    requires Valid(st0) && t in st0.objects && IsTree(st0, kid) && t !in Ids(kid)
    requires Valid(st) && t in st.objects && a in st.objects && VisitedIn(st, visited) && NoSets(st)
    requires UnchangedExcept(st0, st, t)
    requires Lookup(st.objects[a], k) == Ref(kid.id) && Unlisted(Ids(kid), visited)
    ensures var r := AssignKey(st, t, a, k, visited);
            r.status.Completed? &&
            forall x :: x in r.visited ==> x in visited || x !in st0.objects || x in Ids(kid)
    decreases |Unvisited(st, visited)| + 1, 2, 0
  {
    var v := Ref(kid.id);
    var (st1, f) := Construct(st, st.objects[v.id].kind);
    CopyStore(st0, st, t, k, kid, visited);
    var st2 := Write(st1, t, k, Ref(f)).value;
    assert AssignKey(st, t, a, k, visited) == AssignWithOneSource(st2, f, v, visited);
    CallTree(st2, f, kid, visited);
  }

  /** The heap once the fresh copy for a subtree is stored in the target:
      still without Sets, the subtree still a tree, unlisted and clear of the
      copy, and one more unvisited object. */
  lemma CopyStore(st0: Store, st: Store, t: NodeId, k: Key, kid: Shape, visited: seq<NodeId>)
    requires Valid(st0) && t in st0.objects && IsTree(st0, kid) && t !in Ids(kid)
    requires Valid(st) && t in st.objects && VisitedIn(st, visited) && NoSets(st)
    requires UnchangedExcept(st0, st, t) && Unlisted(Ids(kid), visited)
    ensures kid.id in st.objects
    ensures var (st1, f) := Construct(st, st.objects[kid.id].kind);
            Write(st1, t, k, Ref(f)).Ok? &&
            var st2 := Write(st1, t, k, Ref(f)).value;
            Valid(st2) && f in st2.objects && kid.id in st2.objects && VisitedIn(st2, visited) && NoSets(st2) &&
            f !in visited && f !in Ids(kid) && f !in st0.objects && IsTree(st2, kid) &&
            st0.objects.Keys <= st2.objects.Keys && |Unvisited(st2, visited)| == |Unvisited(st, visited)| + 1
  {
    IdsLive(st0, kid);
    var (st1, f) := Construct(st, st.objects[kid.id].kind);
    CopyKeepsNoSets(st, t, k, st.objects[kid.id].kind);
    var st2 := Write(st1, t, k, Ref(f)).value;
    UnvisitedAfterAlloc(st, st2, visited, f);
    assert UnchangedExcept(st0, st2, t);
    TreeKept(st0, st2, t, kid);
  }
}
