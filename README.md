# deep-assign, modelled in Dafny

`deepAssign(target, ...sources)` boxes its target with `Object(target)`. It then
folds every object-like source into that box from left to right and returns the
box. `deepAssignWithOneSource(target, source, assignedObjects)` does the work
for one source:

- it rejects a `null` source;
- it rejects a target or source that is already on the identity list
  `assignedObjects`, with "The source object includes a circular reference";
- it pushes both onto that list;
- it walks the source's keys (`getIterator`), reading each value (`getValue`);
- it stores a primitive value in the target as it is (`setValue`);
- for an object value, it stores a fresh container of the same kind
  (`Reflect.construct`), then fills that container recursively with the same
  list.

Maps and Sets take the same branch: their keys come from `keys()`, a value is
read with `get` and written with `set`. A Set has no `get` or `set`, so reading
an entry of a non-empty Set source, or writing into a Set target, throws the
host's TypeError. Every other object uses `Object.keys` and `[]`.

The model has ten modules:

- `JsValues`: values, objects and their kinds (plain, Map, Set), plus the
  per-object helpers `isObject`, `isMap`, `isSet`, `getIterator`, `getValue`
  and `setValue`.
- `ObjectStore`: the heap as a value (every live object by identity), with
  allocation, one-entry reads and writes, and the termination measure. The
  measure is the number of live objects not yet on the identity list.
- `AssignSpec`: the whole routine as functions of the heap. The recursion is
  split into the call itself (`AssignWithOneSource`), the walk over the keys
  (`AssignKeys`) and one turn of the walk (`AssignKey`). It also has the fold
  over the sources and the boxing.
- `DeepAssignImpl`: the routine as the program runs it. A class `Heap` holds
  the objects and is updated in place. A class `IdentityList` is the shared,
  append-only `assignedObjects` array. The key walk is a `while` loop. Each
  method is proved to leave the heap, the list and the outcome exactly as the
  functions of `AssignSpec` say.
- `AssignFrame`, `AssignCopy`, `AssignErrors`, `AssignReach`, `AssignTree`
  and `AssignFold`: what the routine promises, proved about those functions.
  Those six files are `assign_frame.dfy` (what a call leaves unchanged),
  `assign_copy.dfy` (what it writes), `assign_errors.dfy` (which errors can
  come out), `assign_reach.dfy` (when a call throws, at any depth),
  `assign_tree.dfy` (when a call completes, at any depth) and
  `assign_fold.dfy` (the fold over the sources and `deepAssign` as a
  whole).

A path from an object is a sequence of keys, each step reading a reference
(`AssignReach.Path`). A tree is a certificate (`AssignTree.Shape`) that the
objects reachable from a source form a tree: each object holds each of its
children at one key only, and no object is reached twice.

Three behaviours of the code are easy to miss:

- A top-level `null` source is skipped, not rejected. `isObject(null)` is
  false, so the `source === null` check in `deepAssignWithOneSource` is never
  reached. `AssignSpec.DeepAssign` proves that the null-source error never
  comes out.
- A non-empty Set source and a Set target that receives a key throw the host
  TypeError from `.get` or `.set`. They are not merged element by element.
- The identity list is never popped. So an object reached twice within one
  source throws the circular-reference error even when there is no cycle: two
  different key paths to the same object are enough, at any depth
  (`AssignReach.AssignWithOneSourceShares`).

## Model

| member | source | states |
|---|---|---|
| `JsValues.IsObject` | deepAssign.js:44 | true for every reference and false for every primitive, so `null`, `undefined`, booleans, numbers and strings are not objects |
| `JsValues.IsMap` | deepAssign.js:70-77 | the kind tag that replaces the `Map.prototype.has` probe; no object is both a Map and a Set, and an object takes the `keys()`/`get`/`set` branch iff it is a Map or a Set |
| `JsValues.IsSet` | deepAssign.js:79-86 | the kind tag that replaces the `Set.prototype.has` probe; no object is both a Set and a Map |
| `JsValues.GetIterator` | deepAssign.js:46-52 | yields each own entry of the object exactly once: no repeats, and a key is yielded iff the object has it |
| `JsValues.GetValue` | deepAssign.js:54-60 | fails (TypeError) iff the object is a Set; otherwise gives the stored value, or `undefined` for an absent key |
| `JsValues.Put` | deepAssign.js:64-66 | a write keeps the object's kind and key order and appends a new key; the key then holds the value and every other key is untouched |
| `JsValues.SetValue` | deepAssign.js:62-68 | fails (TypeError) iff the target is a Set |
| `JsValues.SetThenGet` | deepAssign.js:54-68 | reading back a written key gives the written value; every other key reads as before |
| `JsValues.SetTwice` | deepAssign.js:62-68 | writing a key twice leaves the object as the second write alone does |
| `ObjectStore.Construct` | deepAssign.js:35 | `Reflect.construct` gives an identity that was not live, holding an empty object of the requested kind; no other object changes |
| `ObjectStore.Read` | deepAssign.js:32 | reading a source entry fails iff the source is a Set, and never yields a dangling reference |
| `ObjectStore.Write` | deepAssign.js:38 | writing a target entry fails iff the target is a Set; otherwise only the target changes, and the heap stays valid |
| `ObjectStore.UnvisitedAfterPush` | deepAssign.js:26 | pushing target and source removes exactly them from the unvisited objects; the count drops by one or two (the termination measure) |
| `ObjectStore.UnvisitedAfterAlloc` | deepAssign.js:35 | a freshly built container is the only object added to the unvisited set |
| `AssignSpec.AssignWithOneSource` | deepAssign.js:17-42 | the heap stays valid and only grows; the list only grows; the null-source error is raised iff the source is `null`; a completed call has put target and source on the list and taken the target off the unvisited set |
| `AssignSpec.AssignKeys` | deepAssign.js:27-41 | the walk over the keys keeps the heap valid and the list growing and never raises the null-source error; a completed walk adds no unvisited objects (a walk that throws on a Set target may leave its fresh container live and unlisted) |
| `AssignSpec.AssignKey` | deepAssign.js:31-39 | one turn keeps the heap valid and the list growing and never raises the null-source error |
| `AssignSpec.AssignSources` | deepAssign.js:7-11 | the fold over the sources keeps the heap valid and never raises the null-source error |
| `AssignSpec.Box` | deepAssign.js:5 | `Object(target)` is the target itself for an object, otherwise a new empty plain object; nothing else changes |
| `AssignSpec.DeepAssign` | deepAssign.js:4-14 | returns the target itself when it is an object, otherwise a new object; never raises the null-source error |
| `DeepAssignImpl.IdentityList.constructor` | deepAssign.js:9 | each top-level source starts with an empty list |
| `DeepAssignImpl.IdentityList.Push` | deepAssign.js:26 | `push(target, source)` appends exactly those two identities |
| `DeepAssignImpl.Heap.Construct` | deepAssign.js:35 | in-place allocation leaves the heap as `ObjectStore.Construct` does |
| `DeepAssignImpl.Heap.SetValue` | deepAssign.js:62-68 | in-place write: the heap becomes what `ObjectStore.Write` gives, or is unchanged with the TypeError status |
| `DeepAssignImpl.Heap.AssignWithOneSource` | deepAssign.js:17-27 | after the checks and the push, the heap, the shared list and the outcome are those of `AssignSpec.AssignWithOneSource` |
| `DeepAssignImpl.Heap.AssignKeys` | deepAssign.js:27-41 | the `while` loop over the key snapshot leaves the heap, list and outcome of `AssignSpec.AssignKeys` |
| `DeepAssignImpl.Heap.AssignKey` | deepAssign.js:31-39 | one loop turn, including the recursive call into the fresh container read back with `getValue`, matches `AssignSpec.AssignKey` |
| `DeepAssignImpl.Heap.DeepAssign` | deepAssign.js:4-14 | the `forEach` with a new list per object source leaves the heap, result and outcome of `AssignSpec.DeepAssign` |
| `AssignFrame.AssignWithOneSourceFrame` | deepAssign.js:17-42 | whatever the outcome, no object live before the call changes except the target, which keeps its kind and key order; a heap without Sets stays without Sets |
| `AssignFrame.AssignKeysFrame` | deepAssign.js:27-41 | the same frame for the walk over the keys |
| `AssignFrame.AssignKeyFrame` | deepAssign.js:31-39 | the same frame for one turn, through the fresh container's recursive fill |
| `AssignFrame.WriteFrame` | deepAssign.js:62-68 | a single write keeps the target's kind and key order and adds no Set |
| `AssignFrame.CopyFrame` | deepAssign.js:35-36 | allocating, storing and filling a container changes no earlier object except the target |
| `AssignFrame.CopyKeepsNoSets` | deepAssign.js:35-38 | storing a fresh non-Set container succeeds and adds no Set |
| `AssignFrame.AssignKeyKeeps` | deepAssign.js:31-39 | a turn for key `j` leaves the target's entry at every other key as it was |
| `AssignFrame.AssignKeysKeeps` | deepAssign.js:27-41 | the walk leaves the target's entry at every key it does not reach as it was |
| `AssignFrame.AssignWithOneSourceKeeps` | deepAssign.js:17-42 | nothing else changes: a key the source lacks keeps its target entry, whatever the outcome |
| `AssignCopy.AssignKeyCopies` | deepAssign.js:34-38 | unless a Set is involved, a turn stores the primitive as it is, or a new container of the value's kind, and that entry stays even if the fill throws; a primitive never makes the turn fail |
| `AssignCopy.AssignKeysCopies` | deepAssign.js:27-41 | a completed walk leaves at every key it reaches the copy of the value the source had there when the walk began |
| `AssignCopy.AssignWithOneSourceCopies` | deepAssign.js:17-42 | after a completed call every source key holds a primitive copy or a fresh container of the same kind, never the source's own object |
| `AssignCopy.MergeKeysGrows` | deepAssign.js:64-66 | merging keys keeps the existing keys as a prefix and adds at most the merged ones |
| `AssignCopy.MergeNewKeys` | deepAssign.js:64-66 | merging keys that are all new appends them in order |
| `AssignCopy.AssignKeyKeyOrder` | deepAssign.js:31-39 | a completed turn leaves the target's keys as before, with the key appended if it was new |
| `AssignCopy.AssignKeysKeyOrder` | deepAssign.js:27-41 | a completed walk leaves the target's keys merged with the walked keys in walk order |
| `AssignCopy.AssignWithOneSourceKeyOrder` | deepAssign.js:17-42 | after a completed call the target has its own keys in order, then the source's new keys in the source's order |
| `AssignCopy.AssignWithOneSourceFillsEmpty` | deepAssign.js:36 | filling an empty container that completes gives it exactly the source's keys, in order |
| `AssignCopy.AssignKeyFillsCopy` | deepAssign.js:34-36 | a completed turn on an object value leaves, at that key, a container with exactly that object's keys |
| `AssignErrors.AssignWithOneSourceErrors` | deepAssign.js:17-42 | on a heap without Sets, a call on an object source either completes or throws the circular-reference error |
| `AssignErrors.AssignKeysErrors` | deepAssign.js:27-41 | the same for the walk over the keys |
| `AssignErrors.AssignKeyErrors` | deepAssign.js:31-39 | the same for one turn, through the recursive fill |
| `AssignErrors.AssignKeyRevisits` | deepAssign.js:34-36 | a turn whose value is an object already on the list throws |
| `AssignErrors.AssignKeyVisits` | deepAssign.js:26 | a turn that completes on an object value has put that object on the list |
| `AssignReach.PathTail` | deepAssign.js:34-36 | a path without its first step is a path from the child the first step reads |
| `AssignReach.PathPrefix` | deepAssign.js:34-36 | the first `n` steps of a path are a path |
| `AssignReach.PathKept` | deepAssign.js:35-36 | a path survives a change to the target when no inner object of the path is the target and its first step reads as before |
| `AssignReach.CallReaches` | deepAssign.js:17-42 | a call throws when a path from the source, not passing through the target, ends at a listed object, the target or the source itself |
| `AssignReach.WalkReaches` | deepAssign.js:27-41 | a walk that has yet to reach the key starting such a path throws |
| `AssignReach.TurnReaches` | deepAssign.js:31-39 | the turn for the key starting a path to a listed object throws |
| `AssignReach.StepKept` | deepAssign.js:31-39 | a turn for any other key than a path's first one keeps that path |
| `AssignReach.AssignWithOneSourceReaches` | deepAssign.js:17-42 | a call throws whenever some path of one or more keys from the source ends at the source itself, the target or an object already on the list: a cycle at any depth |
| `AssignReach.CallVisits` | deepAssign.js:17-42 | a completed call has put the end of every path from its source, not passing through the target, on the list |
| `AssignReach.WalkVisits` | deepAssign.js:27-41 | a completed walk has put on the list the end of every path starting at a key it reached |
| `AssignReach.TurnVisits` | deepAssign.js:31-39 | a completed turn has put on the list the end of every path starting at its key |
| `AssignReach.AssignWithOneSourceVisits` | deepAssign.js:17-42 | a completed call has put on the list every object reachable from its source |
| `AssignReach.CallShared` | deepAssign.js:17-42 | a call throws when two different paths from the source, neither passing through the target, end at the same object |
| `AssignReach.WalkShared` | deepAssign.js:27-41 | the walk over all of the source's keys throws in that case |
| `AssignReach.WalkSharedFrom` | deepAssign.js:27-41 | a walk that has yet to reach the first keys of both paths throws |
| `AssignReach.TurnShared` | deepAssign.js:31-39 | two different paths that start at the same key make that turn throw |
| `AssignReach.ChildShared` | deepAssign.js:35-36 | the fill of the fresh container for the child two different paths share as their first step throws |
| `AssignReach.TailKept` | deepAssign.js:35-36 | after the fresh container is stored, the rest of a path is still a path from the child, and it cannot pass through the container |
| `AssignReach.SplitAt` | deepAssign.js:27-41 | two paths that start at different keys and meet: the walk throws at the later key, because the earlier one listed the meeting object |
| `AssignReach.AssignWithOneSourceShares` | deepAssign.js:17-42 | a call throws whenever two different key paths from the source end at the same object, cycle or not, at any depth |
| `AssignTree.KidIds` | deepAssign.js:34-36 | the objects of a child's tree are objects of the parent's tree |
| `AssignTree.IdsLive` | deepAssign.js:32 | every object of a tree is live |
| `AssignTree.TreeKept` | deepAssign.js:35-38 | a tree stays a tree when the only object that changes is outside it |
| `AssignTree.CallTree` | deepAssign.js:17-42 | on a heap without Sets, a call on a tree source that avoids the target and the list completes, and lists only what was listed before, the target, objects of the tree and fresh copies |
| `AssignTree.AssignWithOneSourceTree` | deepAssign.js:17-42 | on a heap without Sets, a call with an empty list on a tree source that avoids the target completes |
| `AssignTree.RootListed` | deepAssign.js:22-26 | the root of an unlisted tree is live and unlisted, so the checks pass and the push keeps the list live |
| `AssignTree.KidsUnlisted` | deepAssign.js:26 | after the push, every child's tree is still unlisted |
| `AssignTree.WalkTree` | deepAssign.js:27-41 | the walk over a tree's keys completes and adds to the list only objects of the tree and fresh copies |
| `AssignTree.TurnTree` | deepAssign.js:31-39 | one turn of that walk completes and adds to the list only objects of that key's child tree and fresh copies |
| `AssignTree.CopyKid` | deepAssign.js:34-36 | copying a child tree completes and adds to the list only its objects and fresh copies |
| `AssignTree.CopyStore` | deepAssign.js:35 | storing the fresh container keeps the heap valid and without Sets, keeps the child a tree, and adds one unvisited object |
| `AssignFold.AssignSourcesAppend` | deepAssign.js:7-11 | sources run strictly left to right: applying `a + b` is applying `a`, then `b` on the heap that `a` left unless `a` threw |
| `AssignFold.ObjectSources` | deepAssign.js:8 | keeps exactly the object sources, in order |
| `AssignFold.AssignSourcesSkips` | deepAssign.js:8 | sources that are not objects (`null`, `undefined`, primitives) are skipped: the outcome is that of the object sources alone |
| `AssignFold.AssignSourcesFrame` | deepAssign.js:7-11 | the fold changes no earlier object except the target, which keeps its kind and key order |
| `AssignFold.AssignSourcesKeeps` | deepAssign.js:7-11 | keys that no source has keep their target entry, even when a source throws (no rollback) |
| `AssignFold.LastSourceWins` | deepAssign.js:7-11 | after a completed fold, each key of the last source holds the copy of that source's value, whatever earlier sources wrote there |
| `AssignFold.AssignKeysFlat` | deepAssign.js:27-41 | a walk over a flat source, with no Sets, never throws |
| `AssignFold.AssignWithOneSourceFlat` | deepAssign.js:17-42 | a call on an unvisited flat source, with no Sets, completes |
| `AssignFold.AssignSourcesSingle` | deepAssign.js:9 | one object source is one call with an empty list |
| `AssignFold.SameSourceTwice` | deepAssign.js:9 | the list is per source: the same tree source given twice completes, whereas sharing one list across the two calls would throw |
| `AssignFold.BoxKeeps` | deepAssign.js:5 | boxing the target adds no Set, changes no other object and keeps every path |
| `AssignFold.BoxKeepsTree` | deepAssign.js:5 | a tree avoiding the target stays a tree avoiding the boxed target |
| `AssignFold.DeepAssignSingle` | deepAssign.js:4-14 | `deepAssign` with one object source ends as one call, with an empty list, on the boxed target |
| `AssignFold.DeepAssignTree` | deepAssign.js:4-42 | on a heap without Sets, `deepAssign` with one tree source that does not hold the target completes |
| `AssignFold.DeepAssignCircular` | deepAssign.js:4-42 | on a heap without Sets, `deepAssign` throws the circular-reference error when its source reaches, along any path, itself or the target object |
| `AssignFold.DeepAssignShared` | deepAssign.js:4-42 | on a heap without Sets, `deepAssign` throws the circular-reference error when its source reaches one object along two different paths |

## Left out

- Installing `deepAssign` on `Object.prototype`, and the install-once guard
  (lines 3-4): this changes process-wide state and has no logic to prove.
  `DeepAssign` is a plain operation.
- `isMap` and `isSet` probe host internal slots with `try`/`catch`. They are
  replaced by a kind tag on each object, so an object that is both a Map and
  a Set cannot be expressed.
- `ObjectStore.Construct`: `Reflect.construct(value.constructor, value)` is
  modelled as a fresh empty object of the same kind. Host quirks are not
  modelled: arrays rebuilt from their elements, Dates and other built-ins,
  class constructors with side effects, and the TypeError for objects without
  a prototype. Two more are not modelled. First, the second argument is
  spread as an array-like, so a plain value `{length: 1, 0: o}` with an object
  `o` becomes `new Object(o)`, which is `o` itself: the target then holds the
  source's own object instead of a fresh copy. Second, an own `constructor`
  entry whose value is not a constructor makes the call throw a TypeError.
- `AssignSpec.Box`: boxing a primitive gives an empty plain object. The
  indexed entries of a boxed string are not modelled.
- `JsValues.Put`: every new key goes last. Plain objects enumerate
  integer-like keys first in ascending order, and that is not modelled. Key
  order in `AssignCopy` is insertion order.
- Keys are strings. Map keys that are other values, symbol keys, and the
  string coercion of keys written into a plain object are not modelled.
- Getters, setters, non-enumerable properties and prototype chains are not
  modelled. Functions as values are not modelled either.
- The source's keys are read once, when the walk starts. A Map's live
  iterator would also see keys added during the walk. The routine can add keys
  to the source only when the source is the target itself, and then only keys
  the source already has.
- Numbers are unbounded integers, with no floating point.
- Call-stack depth limits: the host may overflow its stack on deep inputs.
  The model only proves termination.
- `AssignCopy.AssignWithOneSourceCopies`: a copied container is proved to
  have the source's keys only at the first level (`AssignKeyFillsCopy`). A
  full structural deep-equality of the copy is not stated.
- Idempotence of merging the same source twice into a fresh object is not
  proved.
- `AssignTree.CallTree`: completion is proved on heaps without any Set. A Set
  that the source cannot reach would not matter, but the proof does not
  separate those.
