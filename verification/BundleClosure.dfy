/**
 The object graph of a bundle: collecting the closure of the roots on export, and publishing it in
 dependency order on import.
*/
module BundleClosure {
  import opened Options

  type Id = string

  /** A collision-free digest, identified with the content that was digested. */
  datatype Sha = Sha(content: string)

  datatype Manifest = Manifest(kind: string, files: map<string, Sha>, references: seq<Id>)

  /** A manifest and the contents of its files by name. */
  datatype Object = Object(manifest: Manifest, files: map<string, string>)

  type Store = map<Id, Object>

  datatype BundleError = MissingObject | TooLarge | Cycle

  const MAX_BUNDLE_BYTES: nat := 1024 * 1024 * 1024

  ghost function Refs(store: Store, id: Id): set<Id>
    requires id in store
  {
    set r | r in store[id].manifest.references
  }

  /** Every reference of a stored object is stored. */
  ghost predicate Closed(store: Store) {
    forall id :: id in store ==> Refs(store, id) <= store.Keys
  }

  /** A path of references from a root to its last object. */
  ghost predicate IsPath(store: Store, roots: set<Id>, path: seq<Id>) {
    && |path| > 0 && path[0] in roots
    && (forall i :: 0 <= i < |path| ==> path[i] in store)
    && forall i :: 0 <= i < |path| - 1 ==> path[i + 1] in Refs(store, path[i])
  }

  ghost predicate Reaches(store: Store, roots: set<Id>, id: Id) {
    exists path :: IsPath(store, roots, path) && path[|path| - 1] == id
  }

  ghost function Reachable(store: Store, roots: set<Id>): set<Id> {
    set id | id in store && Reaches(store, roots, id)
  }

  lemma RootReaches(store: Store, roots: set<Id>, id: Id)
    requires id in roots && id in store
    ensures Reaches(store, roots, id)
  {
    assert IsPath(store, roots, [id]);
    assert [id][|[id]| - 1] == id;
  }

  lemma ReachesFurther(store: Store, roots: set<Id>, id: Id, next: Id)
    requires Reaches(store, roots, id) && id in store && next in store && next in Refs(store, id)
    ensures Reaches(store, roots, next)
  {
    var path :| IsPath(store, roots, path) && path[|path| - 1] == id;
    var more := path + [next];
    assert IsPath(store, roots, more);
    assert more[|more| - 1] == next;
  }

  /** A set that contains the roots and is closed under references contains every path. */
  lemma {:induction false} ClosedContainsPath(store: Store, roots: set<Id>, inside: set<Id>, path: seq<Id>)
    requires IsPath(store, roots, path) && roots <= inside
    requires forall id :: id in inside && id in store ==> Refs(store, id) <= inside
    ensures path[|path| - 1] in inside
    decreases |path|
  {
    if |path| > 1 {
      var shorter := path[..|path| - 1];
      ClosedContainsPath(store, roots, inside, shorter);
      assert path[|path| - 2 + 1] in Refs(store, path[|path| - 2]);
    }
  }

  /** The total of a measure over a set of stored objects. */
  ghost function Total(store: Store, size: Object -> nat, ids: set<Id>): nat
    requires ids <= store.Keys
  {
    if ids == {} then 0
    else
      var id :| id in ids;
      size(store[id]) + Total(store, size, ids - {id})
  }

  lemma {:induction false} TotalWithout(store: Store, size: Object -> nat, ids: set<Id>, id: Id)
    requires ids <= store.Keys && id in ids
    ensures Total(store, size, ids) == size(store[id]) + Total(store, size, ids - {id})
  {
    var first :| first in ids && Total(store, size, ids) == size(store[first]) + Total(store, size, ids - {first});
    if first != id {
      TotalWithout(store, size, ids - {first}, id);
      TotalWithout(store, size, ids - {id}, first);
      assert ids - {first} - {id} == ids - {id} - {first};
    }
  }

  lemma {:induction false} TotalMonotone(store: Store, size: Object -> nat, fewer: set<Id>, more: set<Id>)
    requires fewer <= more <= store.Keys
    ensures Total(store, size, fewer) <= Total(store, size, more)
  {
    if fewer != {} {
      var id :| id in fewer;
      TotalWithout(store, size, fewer, id);
      TotalWithout(store, size, more, id);
      TotalMonotone(store, size, fewer - {id}, more - {id});
    }
  }

  /** Where the worklist stands: what is collected is reachable, and whatever it refers to, like every
      root, is collected or pending. */
  ghost predicate Collecting(store: Store, roots: set<Id>, objects: Store, pending: seq<Id>) {
    && objects.Keys <= Reachable(store, roots)
    && (forall id :: id in objects ==> objects[id] == store[id])
    && (forall id :: id in pending ==> Reaches(store, roots, id) || id in roots)
    && (forall id :: id in roots ==> id in objects || id in pending)
    && forall id, r :: id in objects && r in Refs(store, id) ==> r in objects || r in pending
  }

  /** Everything the roots lead to is stored. */
  ghost predicate Intact(store: Store, roots: set<Id>) {
    roots <= store.Keys && forall id :: id in Reachable(store, roots) ==> Refs(store, id) <= store.Keys
  }

  lemma ReachesStored(store: Store, roots: set<Id>, id: Id)
    requires Reaches(store, roots, id)
    ensures id in store
  {
    var path :| IsPath(store, roots, path) && path[|path| - 1] == id;
  }

  lemma PendingReaches(store: Store, roots: set<Id>, objects: Store, pending: seq<Id>, id: Id)
    requires Collecting(store, roots, objects, pending) && id in pending
    ensures if id in store then id in Reachable(store, roots) else id in roots
  {
    if Reaches(store, roots, id) {
      ReachesStored(store, roots, id);
    } else if id in store {
      RootReaches(store, roots, id);
    }
  }

  /** Collecting one more object whose references are all stored. */
  lemma CollectOne(store: Store, roots: set<Id>, objects: Store, pending: seq<Id>, id: Id)
    requires Collecting(store, roots, objects, pending + [id]) && id in store && Refs(store, id) <= store.Keys
    ensures Collecting(store, roots, objects[id := store[id]], pending + store[id].manifest.references)
  {
    PendingReaches(store, roots, objects, pending + [id], id);
    forall r | r in store[id].manifest.references ensures Reaches(store, roots, r) {
      assert r in Refs(store, id);
      ReachesFurther(store, roots, id, r);
    }
  }

  /** Its size is counted once. */
  lemma CountOne(store: Store, roots: set<Id>, objects: Store, id: Id, size: Object -> nat, total: nat)
    requires Counting(store, objects, size, total) && id in store && id !in objects && Refs(store, id) <= store.Keys
    requires objects.Keys + {id} <= Reachable(store, roots)
    ensures var more := total + size(store[id]);
            && more <= Total(store, size, Reachable(store, roots))
            && (more <= MAX_BUNDLE_BYTES ==> Counting(store, objects[id := store[id]], size, more))
  {
    var more := objects[id := store[id]];
    assert more.Keys == objects.Keys + {id} && more.Keys - {id} == objects.Keys;
    TotalWithout(store, size, more.Keys, id);
    TotalMonotone(store, size, more.Keys, Reachable(store, roots));
  }

  lemma CollectedAll(store: Store, roots: set<Id>, objects: Store)
    requires Collecting(store, roots, objects, [])
    ensures objects.Keys == Reachable(store, roots)
  {
    forall id | id in Reachable(store, roots) ensures id in objects {
      var path :| IsPath(store, roots, path) && path[|path| - 1] == id;
      forall i | i in objects ensures Refs(store, i) <= objects.Keys {}
      ClosedContainsPath(store, roots, objects.Keys, path);
    }
  }

  /** Exactly the objects reachable from the roots, unless one of them or of their references is
      missing or their total is too large. */
  method CollectObjects(store: Store, roots: seq<Id>, size: Object -> nat) returns (r: Result<Store, BundleError>)
    ensures var rs := set id | id in roots;
            && (r.Ok? <==> Intact(store, rs) && Total(store, size, Reachable(store, rs)) <= MAX_BUNDLE_BYTES)
            && (r == Err(TooLarge) ==> Total(store, size, Reachable(store, rs)) > MAX_BUNDLE_BYTES)
            && (r == Err(MissingObject) ==> !Intact(store, rs)) && r != Err(Cycle)
            && (r.Ok? ==> r.value.Keys == Reachable(store, rs) && forall id :: id in r.value ==> r.value[id] == store[id])
  {
    ghost var rs := set id | id in roots;
    var pending, objects: Store, total: nat := roots, map[], 0;
    while pending != []
      invariant Collecting(store, rs, objects, pending) && Counting(store, objects, size, total)
      decreases store.Keys - objects.Keys, |pending|
    {
      var id := pending[|pending| - 1];
      var rest := pending[..|pending| - 1];
      SplitLast(pending);
      if id in objects {
        AlreadyCollected(store, rs, objects, rest, id);
        pending := rest;
      } else {
        var larger := Collect(store, rs, objects, rest, id, size, total);
        if larger.Err? {
          return Err(larger.error);
        }
        objects, total := objects[id := store[id]], larger.value;
        pending := rest + store[id].manifest.references;
      }
    }
    CollectedAll(store, rs, objects);
    CollectedIsIntact(store, rs, objects, size, total);
    r := Ok(objects);
  }

  /** One object not collected yet: it is stored with all it refers to, and the total may hold it. */
  method Collect(store: Store, ghost roots: set<Id>, objects: Store, rest: seq<Id>, id: Id, size: Object -> nat, total: nat)
    returns (larger: Result<nat, BundleError>)
    requires Collecting(store, roots, objects, rest + [id]) && Counting(store, objects, size, total) && id !in objects
    ensures larger.Ok? ==>
              && id in store && Counting(store, objects[id := store[id]], size, larger.value)
              && Collecting(store, roots, objects[id := store[id]], rest + store[id].manifest.references)
    ensures larger.Err? ==>
              || (larger.error == TooLarge && Total(store, size, Reachable(store, roots)) > MAX_BUNDLE_BYTES)
              || (larger.error == MissingObject && !Intact(store, roots))
  {
    if id !in store || exists r :: r in store[id].manifest.references && r !in store {
      NotIntact(store, roots, objects, rest + [id], id);
      return Err(MissingObject);
    }
    CollectOne(store, roots, objects, rest, id);
    CountOne(store, roots, objects, id, size, total);
    larger := if total + size(store[id]) > MAX_BUNDLE_BYTES then Err(TooLarge) else Ok(total + size(store[id]));
  }

  lemma SplitLast(pending: seq<Id>)
    requires pending != []
    ensures pending == pending[..|pending| - 1] + [pending[|pending| - 1]]
  {
  }

  lemma AlreadyCollected(store: Store, roots: set<Id>, objects: Store, rest: seq<Id>, id: Id)
    requires Collecting(store, roots, objects, rest + [id]) && id in objects
    ensures Collecting(store, roots, objects, rest)
  {
    assert forall x :: x in rest + [id] <==> x in rest || x == id;
  }

  lemma NotIntact(store: Store, roots: set<Id>, objects: Store, pending: seq<Id>, id: Id)
    requires Collecting(store, roots, objects, pending) && id in pending
    requires id in store ==> !(Refs(store, id) <= store.Keys)
    ensures !Intact(store, roots)
  {
    PendingReaches(store, roots, objects, pending, id);
  }

  lemma CollectedIsIntact(store: Store, roots: set<Id>, objects: Store, size: Object -> nat, total: nat)
    requires Collecting(store, roots, objects, []) && Counting(store, objects, size, total)
    requires objects.Keys == Reachable(store, roots)
    ensures Intact(store, roots) && Total(store, size, Reachable(store, roots)) <= MAX_BUNDLE_BYTES
  {
    forall id | id in roots ensures id in store {
      assert id in objects.Keys;
    }
  }

  /** What is collected refers to stored objects only, and its sizes add up to the total. */
  ghost predicate Counting(store: Store, objects: Store, size: Object -> nat, total: nat) {
    && objects.Keys <= store.Keys
    && (forall id :: id in objects ==> Refs(store, id) <= store.Keys)
    && total == Total(store, size, objects.Keys) && total <= MAX_BUNDLE_BYTES
  }

  /** What was collected is closed again. */
  lemma ReachableIsClosed(store: Store, roots: set<Id>, objects: Store)
    requires Closed(store) && objects.Keys == Reachable(store, roots)
    requires forall id :: id in objects ==> objects[id] == store[id]
    ensures Closed(objects)
  {
    forall id, r | id in objects && r in Refs(objects, id) ensures r in objects {
      assert r in Refs(store, id);
      ReachesFurther(store, roots, id, r);
    }
  }

  ghost predicate RefersTo(store: Store, id: Id, next: Id) {
    id in store && next in store[id].manifest.references
  }

  /** Each object of the sequence refers to the next. */
  ghost predicate IsTrail(store: Store, trail: seq<Id>) {
    |trail| > 0 && forall i :: 0 <= i < |trail| - 1 ==> RefersTo(store, trail[i], trail[i + 1])
  }

  /** A trail whose last object refers to its first. */
  ghost predicate IsCycle(store: Store, cycle: seq<Id>) {
    IsTrail(store, cycle) && RefersTo(store, cycle[|cycle| - 1], cycle[0])
  }

  /** Every object comes after all it refers to, and none comes twice. */
  ghost predicate DependencyOrder(store: Store, order: seq<Id>) {
    forall k :: 0 <= k < |order| ==>
      order[k] in store && order[k] !in order[..k] && forall r :: r in Refs(store, order[k]) ==> r in order[..k]
  }

  /** In a dependency order the objects of a cycle, followed around it, come ever earlier. */
  lemma {:induction false} CycleDescends(store: Store, order: seq<Id>, cycle: seq<Id>, i: nat, k: nat)
    returns (later: nat)
    requires DependencyOrder(store, order) && IsCycle(store, cycle) && i <= |cycle|
    requires k < |order| && order[k] == cycle[0]
    ensures later <= k - i && order[later] == cycle[if i == |cycle| then 0 else i]
    ensures i > 0 ==> order[later] in order[..k]
  {
    if i == 0 {
      later := k;
    } else {
      var before := CycleDescends(store, order, cycle, i - 1, k);
      var next := cycle[if i == |cycle| then 0 else i];
      assert RefersTo(store, cycle[i - 1], next) by {
        if i < |cycle| {
          assert RefersTo(store, cycle[i - 1], cycle[i - 1 + 1]);
        }
      }
      assert next in Refs(store, order[before]) && next in order[..before];
      later :| 0 <= later < before && order[..before][later] == next;
      assert order[..k][later] == order[later];
    }
  }

  lemma OrderHasNoCycle(store: Store, order: seq<Id>, cycle: seq<Id>)
    requires DependencyOrder(store, order) && (forall id :: id in store ==> id in order)
    ensures !IsCycle(store, cycle)
  {
    if IsCycle(store, cycle) {
      assert RefersTo(store, cycle[0], cycle[if |cycle| == 1 then 0 else 0 + 1]);
      var k :| 0 <= k < |order| && order[k] == cycle[0];
      var last := CycleDescends(store, order, cycle, |cycle|, k);
    }
  }

  predicate Blocked(store: Store, pending: set<Id>, id: Id)
    requires id in store
  {
    exists r :: r in store[id].manifest.references && r in pending
  }

  ghost function Elements(trail: seq<Id>): set<Id> {
    set id | id in trail
  }

  /** Where every object of a nonempty set refers to one of the set, following references closes a
      cycle. */
  lemma {:induction false} FindCycle(store: Store, stuck: set<Id>, trail: seq<Id>) returns (cycle: seq<Id>)
    requires stuck <= store.Keys && forall id :: id in stuck ==> Blocked(store, stuck, id)
    requires IsTrail(store, trail) && forall id :: id in trail ==> id in stuck
    ensures IsCycle(store, cycle)
    decreases stuck - Elements(trail)
  {
    var last := trail[|trail| - 1];
    assert last in trail && Blocked(store, stuck, last);
    var next :| next in store[last].manifest.references && next in stuck;
    if next in trail {
      var j :| 0 <= j < |trail| && trail[j] == next;
      cycle := TrailCloses(store, trail, j);
    } else {
      TrailMore(store, trail, next);
      assert next in stuck - Elements(trail);
      assert Elements(trail + [next]) == Elements(trail) + {next};
      cycle := FindCycle(store, stuck, trail + [next]);
    }
  }

  lemma TrailCloses(store: Store, trail: seq<Id>, j: nat) returns (cycle: seq<Id>)
    requires IsTrail(store, trail) && j < |trail| && RefersTo(store, trail[|trail| - 1], trail[j])
    ensures IsCycle(store, cycle)
  {
    cycle := trail[j..];
    forall i | 0 <= i < |cycle| - 1 ensures RefersTo(store, cycle[i], cycle[i + 1]) {
      assert RefersTo(store, trail[j + i], trail[j + i + 1]);
    }
  }

  lemma TrailMore(store: Store, trail: seq<Id>, next: Id)
    requires IsTrail(store, trail) && RefersTo(store, trail[|trail| - 1], next)
    ensures IsTrail(store, trail + [next])
  {
  }

  /** The pending objects that refer to nothing pending. */
  function Ready(staged: Store, pending: set<Id>): set<Id>
    requires pending <= staged.Keys
  {
    set id | id in pending && !Blocked(staged, pending, id)
  }

  lemma StuckHasCycle(staged: Store, pending: set<Id>)
    requires pending != {} && pending <= staged.Keys && Ready(staged, pending) == {}
    ensures exists cycle :: IsCycle(staged, cycle)
  {
    var start :| start in pending;
    forall id | id in pending ensures Blocked(staged, pending, id) {
      assert id !in Ready(staged, pending);
    }
    var cycle := FindCycle(staged, pending, [start]);
  }

  /** Publishes round by round what refers to nothing still pending. The order of publication is a
      dependency order of all objects; the cycle error is raised exactly when there is a cycle. */
  method PublishAll(staged: Store) returns (r: Result<seq<Id>, BundleError>)
    requires Closed(staged)
    ensures r.Ok? ==> DependencyOrder(staged, r.value) && forall id :: id in staged <==> id in r.value
    ensures r.Err? <==> exists cycle :: IsCycle(staged, cycle)
    ensures r.Err? ==> r == Err(Cycle)
  {
    var pending, published := staged.Keys, [];
    while pending != {}
      invariant pending <= staged.Keys && DependencyOrder(staged, published)
      invariant forall id :: id in staged <==> id in pending || id in published
      invariant forall id :: id in pending ==> id !in published
      decreases pending
    {
      var ready := Ready(staged, pending);
      if ready == {} {
        StuckHasCycle(staged, pending);
        return Err(Cycle);
      }
      published := PublishRound(staged, published, pending, ready);
      pending := pending - ready;
    }
    forall cycle ensures !IsCycle(staged, cycle) {
      OrderHasNoCycle(staged, published, cycle);
    }
    r := Ok(published);
  }

  method PublishRound(staged: Store, published: seq<Id>, ghost pending: set<Id>, ready: set<Id>) returns (more: seq<Id>)
    requires Closed(staged) && DependencyOrder(staged, published) && ready <= pending <= staged.Keys
    requires forall id :: id in staged <==> id in pending || id in published
    requires forall id :: id in pending ==> id !in published
    requires forall id :: id in ready ==> !Blocked(staged, pending, id)
    ensures DependencyOrder(staged, more) && forall id :: id in more <==> id in published || id in ready
  {
    more := published;
    var left := ready;
    while left != {}
      invariant left <= ready && DependencyOrder(staged, more)
      invariant forall id :: id in more <==> id in published || id in ready - left
      decreases left
    {
      var id :| id in left;
      PublishNext(staged, more, id);
      more := more + [id];
      left := left - {id};
    }
  }

  lemma PublishNext(staged: Store, order: seq<Id>, id: Id)
    requires DependencyOrder(staged, order) && id in staged && id !in order
    requires forall r :: r in Refs(staged, id) ==> r in order
    ensures DependencyOrder(staged, order + [id])
  {
    var more := order + [id];
    assert more[..|order|] == order;
    forall k | 0 <= k < |order| ensures more[..k] == order[..k] && more[k] == order[k] {}
  }

  /** So at every intermediate point the references of what is published are published. */
  lemma PublishedSoFarIsClosed(staged: Store, order: seq<Id>, k: nat)
    requires DependencyOrder(staged, order) && k <= |order|
    ensures forall id, r :: id in order[..k] && r in Refs(staged, id) ==> r in order[..k]
  {
    forall id, r | id in order[..k] && r in Refs(staged, id) ensures r in order[..k] {
      var i :| 0 <= i < k && order[i] == id;
      assert r in order[..i];
    }
  }
}
