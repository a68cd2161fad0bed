/** Resource registration in the CobaltVK singleton (CobaltVK.h).

    create_resource constructs a resource, appends its owning pointer to
    `resources_`, registers it in `resources_table_` and pushes onto
    `deletion_queue_` a cleanup that erases that table entry and removes
    that pointer from `resources_`. A pushed closure is modelled by the
    record of what it captured (the resource pointer and the table_info). */
module ResourceManager {
  import opened Wrappers
  import opened Handles

  /** A memory::Resource, named by its address. */
  type Resource = nat

  /** make_unique hands back an address that no live resource has. */
  lemma FreshAddressExists(live: seq<Resource>)
    ensures exists r: Resource :: r !in live
  {
    var r := MaxAddress(live) + 1;
    assert r !in live;
  }

  function MaxAddress(live: seq<Resource>): (m: nat)
    ensures forall i :: 0 <= i < |live| ==> live[i] <= m
  {
    if live == [] then 0
    else
      var rest := MaxAddress(live[1..]);
      if live[0] > rest then live[0] else rest
  }

  /** The typed handle create_resource returns: the table and the slot. */
  datatype ResourceHandle = ResourceHandle(table: HandleTable<Resource>, info: SlotInfo)

  /** What a pending cleanup closure captured. */
  datatype PendingCleanup = PendingCleanup(resource: Resource, info: SlotInfo)

  datatype CreateError = ConstructionFailed

  /** The three registries, as values. */
  datatype Registry = Registry(resources: seq<Resource>, table: map<SlotInfo, Resource>, queue: seq<PendingCleanup>)

  // ---------------------------------------------------------------------
  // std::erase_if with "equals x" as the predicate
  // ---------------------------------------------------------------------

  /** `s` with every element equal to `x` removed, the rest in order. */
  function EraseAll<T(==,!new)>(s: seq<T>, x: T): (r: seq<T>)
    ensures multiset(r) == multiset(s)[x := 0]
    ensures forall y :: y in r <==> y in s && y != x
    ensures x !in s ==> r == s
  {
    if s == [] then []
    else
      assert s == [s[0]] + s[1..];
      if s[0] == x then EraseAll(s[1..], x)
      else [s[0]] + EraseAll(s[1..], x)
  }

  /** Erasing two values gives the same sequence in either order. */
  lemma {:induction false} EraseAllCommutes<T(!new)>(s: seq<T>, a: T, b: T)
    ensures EraseAll(EraseAll(s, a), b) == EraseAll(EraseAll(s, b), a)
  {
    if s != [] {
      EraseAllCommutes(s[1..], a, b);
    }
  }

  // ---------------------------------------------------------------------
  // The registry invariant
  // ---------------------------------------------------------------------

  /** The resources the pending cleanups own, in queue order. */
  function ResourcesOf(q: seq<PendingCleanup>): (r: seq<Resource>)
    ensures |r| == |q|
    ensures forall i :: 0 <= i < |q| ==> r[i] == q[i].resource
  {
    if q == [] then [] else [q[0].resource] + ResourcesOf(q[1..])
  }

  /** `resources_` owns exactly the resources of the pending cleanups. */
  ghost predicate Owned(st: Registry)
  {
    st.resources == ResourcesOf(st.queue)
  }

  /** Every pending cleanup refers to a live (slot, resource) pair. */
  ghost predicate Listed(st: Registry)
  {
    forall c :: c in st.queue ==> c.info in st.table && st.table[c.info] == c.resource
  }

  /** Every live slot belongs to a pending cleanup. */
  ghost predicate Covered(st: Registry)
  {
    forall k :: k in st.table ==> exists c :: c in st.queue && c.info == k
  }

  /** No two pending cleanups share a slot or a resource, and none is
      queued twice. */
  ghost predicate Apart(q: seq<PendingCleanup>)
  {
    && (forall c, d :: c in q && d in q && (c.info == d.info || c.resource == d.resource) ==> c == d)
    && (forall c :: multiset(q)[c] <= 1)
  }

  /** Every registered resource is owned by `resources_`, listed once in
      the table, and has exactly one pending cleanup; nothing else is in
      either. */
  ghost predicate Inv(st: Registry)
  {
    Owned(st) && Listed(st) && Covered(st) && Apart(st.queue)
  }

  /** The state after create_resource registered `r` under `info`. */
  function Registered(st: Registry, r: Resource, info: SlotInfo): (next: Registry)
    // `r` becomes the last owned resource, after all the earlier ones
    ensures |next.resources| == |st.resources| + 1 && next.resources[|st.resources|] == r
    ensures next.resources[..|st.resources|] == st.resources
    // `info` now maps to `r`; every other entry is as it was
    ensures next.table.Keys == st.table.Keys + {info} && next.table[info] == r
    ensures forall k :: k in st.table && k != info ==> next.table[k] == st.table[k]
    // one cleanup for exactly that pair is queued behind the earlier ones
    ensures |next.queue| == |st.queue| + 1 && next.queue[|st.queue|] == PendingCleanup(r, info)
    ensures next.queue[..|st.queue|] == st.queue
  {
    Registry(st.resources + [r], st.table[info := r], st.queue + [PendingCleanup(r, info)])
  }

  /** The effect of running the cleanup `c` and dropping it from the queue. */
  function CleanedUp(st: Registry, c: PendingCleanup): (next: Registry)
    // the cleanup's resource, entry and record are gone
    ensures c.resource !in next.resources && c.info !in next.table && c !in next.queue
    // nothing else is removed and nothing is added
    ensures forall x :: x in next.resources <==> x in st.resources && x != c.resource
    ensures next.table.Keys == st.table.Keys - {c.info}
    ensures forall d :: d in next.queue <==> d in st.queue && d != c
  {
    Registry(EraseAll(st.resources, c.resource), st.table - {c.info}, EraseAll(st.queue, c))
  }

  /** The invariant in the form callers use: every live table entry points
      to a resource in `resources_`, and every pending cleanup refers to a
      live (slot, resource) pair. */
  lemma InvEntriesAreOwned(st: Registry)
    requires Inv(st)
    ensures forall k :: k in st.table ==> st.table[k] in st.resources
    ensures forall c :: c in st.queue ==> c.info in st.table && st.table[c.info] == c.resource
  {
    forall k | k in st.table
      ensures st.table[k] in st.resources
    {
      var c :| c in st.queue && c.info == k;
      var i :| 0 <= i < |st.queue| && st.queue[i] == c;
      assert st.resources[i] == c.resource;
    }
  }

  lemma {:induction false} ResourcesOfAppend(q: seq<PendingCleanup>, c: PendingCleanup)
    ensures ResourcesOf(q + [c]) == ResourcesOf(q) + [c.resource]
  {
  }

  /** Dropping a cleanup whose resource no other cleanup shares drops
      exactly that resource from the owned list. */
  lemma {:induction false} ResourcesOfErase(q: seq<PendingCleanup>, c: PendingCleanup)
    requires forall d :: d in q && d.resource == c.resource ==> d == c
    ensures ResourcesOf(EraseAll(q, c)) == EraseAll(ResourcesOf(q), c.resource)
  {
    if q != [] {
      assert ResourcesOf(q) == [q[0].resource] + ResourcesOf(q[1..]);
      ResourcesOfErase(q[1..], c);
      if q[0] != c {
        assert EraseAll(q, c) == [q[0]] + EraseAll(q[1..], c);
      }
    }
  }

  /** create_resource keeps the invariant when the table hands out a key
      that is not live and the new resource is a new object. */
  lemma RegisteredKeepsInv(st: Registry, r: Resource, info: SlotInfo)
    requires Inv(st) && r !in st.resources && info !in st.table
    ensures Inv(Registered(st, r, info))
  {
    var st' := Registered(st, r, info);
    ResourcesOfAppend(st.queue, PendingCleanup(r, info));
    NewCleanupIsApart(st, r, info);
    RegisteredListed(st, r, info);
    RegisteredCovered(st, r, info);
    RegisteredApart(st, r, info);
  }

  lemma RegisteredListed(st: Registry, r: Resource, info: SlotInfo)
    requires Listed(st) && forall d :: d in st.queue ==> d.info != info
    ensures Listed(Registered(st, r, info))
  {
    var st' := Registered(st, r, info);
    assert forall e :: e in st'.queue ==> e in st.queue || e == PendingCleanup(r, info);
  }

  lemma RegisteredCovered(st: Registry, r: Resource, info: SlotInfo)
    requires Covered(st)
    ensures Covered(Registered(st, r, info))
  {
    var c := PendingCleanup(r, info);
    var st' := Registered(st, r, info);
    forall k | k in st'.table
      ensures exists e :: e in st'.queue && e.info == k
    {
      if k == info {
        assert c in st'.queue;
      } else {
        var e :| e in st.queue && e.info == k;
        assert e in st'.queue;
      }
    }
  }

  lemma RegisteredApart(st: Registry, r: Resource, info: SlotInfo)
    requires Apart(st.queue) && forall d :: d in st.queue ==> d.resource != r && d.info != info
    ensures Apart(Registered(st, r, info).queue)
  {
    var c := PendingCleanup(r, info);
    var q' := Registered(st, r, info).queue;
    assert multiset(q') == multiset(st.queue) + multiset{c};
    assert c !in st.queue;
    assert forall e :: e in q' ==> e in st.queue || e == c;
  }

  /** A cleanup for a new address under a key that is not live shares
      neither with any pending cleanup. */
  lemma NewCleanupIsApart(st: Registry, r: Resource, info: SlotInfo)
    requires Inv(st) && r !in st.resources && info !in st.table
    ensures forall d :: d in st.queue ==> d.resource != r && d.info != info
  {
    forall d | d in st.queue
      ensures d.resource != r && d.info != info
    {
      var i :| 0 <= i < |st.queue| && st.queue[i] == d;
      assert st.resources[i] == d.resource;
    }
  }

  /** Running a pending cleanup keeps the invariant, removes its own
      resource and table entry and leaves every other resource, table
      entry and pending cleanup as it was. */
  lemma CleanedUpKeepsInv(st: Registry, c: PendingCleanup)
    requires Inv(st) && c in st.queue
    ensures Inv(CleanedUp(st, c))
    ensures c.resource !in CleanedUp(st, c).resources && c.info !in CleanedUp(st, c).table
    ensures forall d :: d in CleanedUp(st, c).queue <==> d in st.queue && d != c
  {
    var st' := CleanedUp(st, c);
    ResourcesOfErase(st.queue, c);
    forall k | k in st'.table
      ensures exists e :: e in st'.queue && e.info == k
    {
      var e :| e in st.queue && e.info == k;
      assert e != c;
      assert e in st'.queue;
    }
  }

  /** The cleanup touches nothing but its own entry and its own resource. */
  lemma CleanupIsLocal(st: Registry, c: PendingCleanup)
    ensures forall k :: k in CleanedUp(st, c).table <==> k in st.table && k != c.info
    ensures forall k :: k in CleanedUp(st, c).table ==> CleanedUp(st, c).table[k] == st.table[k]
    ensures forall x :: x != c.resource ==> multiset(CleanedUp(st, c).resources)[x] == multiset(st.resources)[x]
    ensures c.resource !in CleanedUp(st, c).resources
  {
  }

  /** Cleanups are independent of each other: any two run in either order
      end in the same state. */
  lemma CleanupsCommute(st: Registry, a: PendingCleanup, b: PendingCleanup)
    ensures CleanedUp(CleanedUp(st, a), b) == CleanedUp(CleanedUp(st, b), a)
  {
    EraseAllCommutes(st.resources, a.resource, b.resource);
    EraseAllCommutes(st.queue, a, b);
    assert st.table - {a.info} - {b.info} == st.table - {b.info} - {a.info};
  }

  /** The state after running the cleanups in `order`, one after another. */
  function RunCleanups(st: Registry, order: seq<PendingCleanup>): (next: Registry)
    // cleanups only ever remove: after the run, none of the cleaned-up
    // slots, resources or records remains
    ensures next.table.Keys <= st.table.Keys
    ensures forall x :: x in next.resources ==> x in st.resources
    ensures forall d :: d in next.queue ==> d in st.queue
    ensures forall c :: c in order ==> c.info !in next.table && c.resource !in next.resources && c !in next.queue
    decreases |order|
  {
    if order == [] then st else RunCleanups(CleanedUp(st, order[0]), order[1..])
  }

  /** Running every pending cleanup once, in any order, leaves nothing
      registered: `resources_`, the table and the queue are all empty. */
  lemma {:induction false} RunAllCleanupsEmpties(st: Registry, order: seq<PendingCleanup>)
    requires Inv(st) && multiset(order) == multiset(st.queue)
    ensures RunCleanups(st, order) == Registry([], map[], [])
    decreases |order|
  {
    if order == [] {
      NothingPendingIsEmpty(st);
    } else {
      var c := order[0];
      assert c in multiset(order);
      CleanedUpKeepsInv(st, c);
      RemainingOrder(st, order);
      RunAllCleanupsEmpties(CleanedUp(st, c), order[1..]);
    }
  }

  /** With no cleanup pending, the invariant leaves nothing registered. */
  lemma NothingPendingIsEmpty(st: Registry)
    requires Inv(st) && multiset(st.queue) == multiset{}
    ensures st == Registry([], map[], [])
  {
    assert |st.queue| == |multiset(st.queue)| == 0;
    assert st.table.Keys == {};
  }

  /** After running the first cleanup of `order`, the rest of `order` is
      exactly what is still pending. */
  lemma RemainingOrder(st: Registry, order: seq<PendingCleanup>)
    requires Apart(st.queue) && order != [] && multiset(order) == multiset(st.queue)
    ensures multiset(order[1..]) == multiset(CleanedUp(st, order[0]).queue)
  {
    var c := order[0];
    assert order == [c] + order[1..];
    assert multiset(order[1..]) == multiset(order) - multiset{c};
    assert multiset(st.queue)[c] == 1;
  }

  // ---------------------------------------------------------------------
  // The resource manager object
  // ---------------------------------------------------------------------

  class CobaltVK {
    var deletionQueue: seq<PendingCleanup>
    var resources: seq<Resource>
    const resourcesTable: HandleTable<Resource>

    ghost function State(): Registry
      reads this, resourcesTable
    {
      Registry(resources, resourcesTable.entries, deletionQueue)
    }

    ghost predicate Valid()
      reads this, resourcesTable
    {
      Inv(State())
    }

    constructor ()
      ensures Valid() && fresh(resourcesTable)
      ensures State() == Registry([], map[], [])
    {
      deletionQueue := [];
      resources := [];
      resourcesTable := new HandleTable<Resource>();
    }

    /** store_resource: moves the new resource into `resources_` and
        returns its pointer. */
    method StoreResource(resource: Resource) returns (stored: Resource)
      modifies this`resources
      ensures stored == resource
      ensures resources == old(resources) + [resource]
    {
      resources := resources + [resource];
      stored := resources[|resources| - 1];
    }

    /** create_resource: constructs the resource (which may fail, as told
        by `constructorSucceeds`), stores it, registers it and schedules
        its cleanup. */
    method CreateResource(constructorSucceeds: bool) returns (handle: Result<ResourceHandle, CreateError>)
      requires Valid()
      modifies this`resources, this`deletionQueue, resourcesTable
      ensures Valid()
      ensures !constructorSucceeds ==> handle == Failure(ConstructionFailed) && State() == old(State())
      ensures constructorSucceeds ==>
                && handle.Success? && handle.value.table == resourcesTable
                && |resources| == |old(resources)| + 1
                && var r := resources[|resources| - 1];
                   && r !in old(resources)
                   && handle.value.info !in old(resourcesTable.entries)
                   && resources == old(resources) + [r]
                   && resourcesTable.entries == old(resourcesTable.entries)[handle.value.info := r]
                   && deletionQueue == old(deletionQueue) + [PendingCleanup(r, handle.value.info)]
    {
      if !constructorSucceeds {
        return Failure(ConstructionFailed);
      }
      FreshAddressExists(resources);
      var created :| created !in resources;
      ghost var before := State();
      var resource := StoreResource(created);
      var tableInfo := resourcesTable.Insert(resource);
      var h := ResourceHandle(resourcesTable, tableInfo);
      deletionQueue := deletionQueue + [PendingCleanup(resource, tableInfo)];
      RegisteredKeepsInv(before, resource, tableInfo);
      assert State() == Registered(before, resource, tableInfo);
      return Success(h);
    }

    /** Runs the pending cleanup `c`: erases its table entry and removes
        its resource from `resources_`; the queue lets go of it. */
    method RunCleanup(c: PendingCleanup)
      requires Valid() && c in deletionQueue
      modifies this`resources, this`deletionQueue, resourcesTable
      ensures Valid()
      ensures State() == CleanedUp(old(State()), c)
    {
      CleanedUpKeepsInv(State(), c);
      resourcesTable.Erase(c.info);
      resources := EraseAll(resources, c.resource);
      deletionQueue := EraseAll(deletionQueue, c);
    }
  }
}
