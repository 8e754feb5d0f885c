/**
 * The react-beautiful-dnd compatibility shim built on @dnd-kit: the
 * `DragDropContext` keeps, per drop zone, the entries its draggables
 * registered and the ids in index order, plus a map from each draggable to
 * its zone; at the end of a drag it turns the engine's `(active, over)` ids
 * into a `DropResult`, or reports nothing.
 *
 * `Registry` is a snapshot of the three maps; `Registered`, `Unregistered`
 * and `Resolve` are what `register`, `unregister` and `handleDragEnd` do to
 * or read from it, and the class `DragDropContext` holds the three maps as
 * fields and updates them in place the way the callbacks do.
 */
module DndKitList {
  import opened Wrappers
  import opened OrderTable
  import opened DropResults

  /**
   * `ordersRef`: zone -> entries; `draggableToDroppable`: draggable -> zone;
   * `orderIdsRef`: zone -> ids.
   */
  datatype Registry = Registry(
    orders: map<string, seq<OrderEntry>>,
    draggableToDroppable: map<string, string>,
    orderIds: map<string, seq<string>>)

  /** The three maps as a freshly mounted `DragDropContext` creates them. */
  const Empty: Registry := Registry(map[], map[], map[])

  /** `m.get(key) ?? []` */
  function Lookup<V>(m: map<string, seq<V>>, key: string): seq<V>
  {
    if key in m then m[key] else []
  }

  /**
   * What `register` and `unregister` maintain: every zone's id list is the id
   * projection of its entry list, which is sorted by index and free of
   * duplicate ids, and every draggable's zone holds an entry for it.
   */
  predicate Consistent(st: Registry)
  {
    && st.orders.Keys == st.orderIds.Keys
    && (forall z :: z in st.orders ==> ZoneConsistent(st.orders[z], st.orderIds[z]))
    && (forall d :: d in st.draggableToDroppable ==> HoldsEntry(st.orders, st.draggableToDroppable[d], d))
  }

  /** A zone's id list is the projection of its entries, sorted and without duplicate ids. */
  predicate ZoneConsistent(entries: seq<OrderEntry>, ids: seq<string>)
  {
    ids == Ids(entries) && Sorted(entries) && NoDupIds(entries)
  }

  /** Zone `z` exists and holds an entry for draggable `d`. */
  predicate HoldsEntry(orders: map<string, seq<OrderEntry>>, z: string, d: string)
  {
    z in orders && HasId(orders[z], d)
  }

  /**
   * `register(droppableId, draggableId, index)`: map the draggable to the
   * zone and rebuild that zone's lists. Other zones are not touched, even one
   * that still holds an entry for the draggable.
   */
  function Registered(st: Registry, droppableId: string, draggableId: string, index: int): Registry
  {
    var list := RegisterList(Lookup(st.orders, droppableId), draggableId, index);
    Registry(
      st.orders[droppableId := list],
      st.draggableToDroppable[draggableId := droppableId],
      st.orderIds[droppableId := Ids(list)])
  }

  /**
   * `unregister(draggableId)`: forget the draggable's zone and filter it out
   * of every zone in `ordersRef`, rebuilding each zone's id list.
   */
  function Unregistered(st: Registry, draggableId: string): Registry
  {
    var orders := map z | z in st.orders :: FilterOut(st.orders[z], draggableId);
    Registry(
      orders,
      st.draggableToDroppable - {draggableId},
      st.orderIds + map z | z in orders :: Ids(orders[z]))
  }

  /** `s.indexOf(x)`: the first position of `x` in `s`, or -1 when it is absent. */
  function IndexOf(s: seq<string>, x: string): (r: int)
    ensures -1 <= r < |s|
    ensures r == -1 <==> x !in s
    ensures 0 <= r ==> s[r] == x && x !in s[..r]
  {
    if s == [] then -1
    else if s[0] == x then 0
    else
      var r := IndexOf(s[1..], x);
      if r == -1 then -1 else r + 1
  }

  /** `x` first occurs in `s` at position `k`. */
  predicate FirstAt(s: seq<string>, x: string, k: nat)
  {
    k < |s| && s[k] == x && x !in s[..k]
  }

  /**
   * `handleDragEnd({active, over})`: `None` when no callback is made,
   * `Some(result)` when `onDragEnd(result)` is called. The destination is
   * looked up in the source zone's order and tagged with the source zone.
   */
  function Resolve(st: Registry, active: string, over: Option<string>): (r: Option<DropResult>)
    ensures r.None? <==>
      || active !in st.draggableToDroppable
      || st.draggableToDroppable[active] == ""
      || active !in Lookup(st.orderIds, st.draggableToDroppable[active])
    ensures r.Some? ==>
      && r.value.draggableId == active
      && r.value.dropType == DefaultType
      && r.value.source.droppableId == st.draggableToDroppable[active]
      && FirstAt(Lookup(st.orderIds, st.draggableToDroppable[active]), active, r.value.source.index)
      && (r.value.destination.Some? <==>
            over.Some? && over.value in Lookup(st.orderIds, st.draggableToDroppable[active]))
      && (r.value.destination.Some? ==>
            && r.value.destination.value.droppableId == st.draggableToDroppable[active]
            && FirstAt(Lookup(st.orderIds, st.draggableToDroppable[active]), over.value,
                       r.value.destination.value.index))
      && (r.value.reason == Drop <==> r.value.destination.Some?)
  {
    if active !in st.draggableToDroppable || st.draggableToDroppable[active] == "" then None
    else
      var droppableId := st.draggableToDroppable[active];
      var order := Lookup(st.orderIds, droppableId);
      var sourceIndex := IndexOf(order, active);
      if sourceIndex == -1 then None
      else
        var destIndex := if over.Some? then IndexOf(order, over.value) else -1;
        var destination :=
          if over.Some? && destIndex != -1 then Some(Location(destIndex, droppableId)) else None;
        Some(DropResult(
          active,
          DefaultType,
          Location(sourceIndex, droppableId),
          destination,
          if destination.Some? then Drop else Cancel))
  }

  /** A freshly mounted context is consistent. */
  lemma EmptyConsistent()
    ensures Consistent(Empty)
  {
  }

  /** `register` keeps the registry consistent. */
  lemma RegisteredConsistent(st: Registry, droppableId: string, draggableId: string, index: int)
    requires Consistent(st)
    ensures Consistent(Registered(st, droppableId, draggableId, index))
  {
    var old_ := Lookup(st.orders, droppableId);
    var list := RegisterList(old_, draggableId, index);
    var st' := Registered(st, droppableId, draggableId, index);
    assert st'.orders == st.orders[droppableId := list];
    assert ZoneConsistent(list, Ids(list)) by {
      RegisterListProps(old_, draggableId, index);
      if droppableId in st.orders {
        assert ZoneConsistent(st.orders[droppableId], st.orderIds[droppableId]);
      }
      RegisterListNoDup(old_, draggableId, index);
    }
    forall d | d in st'.draggableToDroppable
      ensures HoldsEntry(st'.orders, st'.draggableToDroppable[d], d)
    {
      if d == draggableId {
        RegisteredHoldsNew(old_, draggableId, index);
      } else {
        var z := st.draggableToDroppable[d];
        assert HoldsEntry(st.orders, z, d);
        if z == droppableId {
          RegisteredHoldsOld(old_, draggableId, index, d);
        }
      }
    }
  }

  /** The freshly registered draggable has an entry in its zone. */
  lemma RegisteredHoldsNew(s: seq<OrderEntry>, d: string, i: int)
    ensures HasId(RegisterList(s, d, i), d)
  {
    var list := RegisterList(s, d, i);
    RegisterListProps(s, d, i);
    var k :| 0 <= k < |list| && list[k] == OrderEntry(d, i);
  }

  /** Every other draggable that had an entry in the zone still has one. */
  lemma RegisteredHoldsOld(s: seq<OrderEntry>, d: string, i: int, other: string)
    requires HasId(s, other) && other != d
    ensures HasId(RegisterList(s, d, i), other)
  {
    var list := RegisterList(s, d, i);
    RegisterListProps(s, d, i);
    var k :| 0 <= k < |s| && s[k].id == other;
    assert s[k] in s;
    var j :| 0 <= j < |list| && list[j] == s[k];
  }

  /**
   * After `register(z, d, i)` the draggable maps to `z`, and `z`'s list is
   * sorted and holds exactly one entry for `d`, with index `i`, next to every
   * other entry it held before; every other zone keeps its lists, including
   * one that still holds a stale entry for `d`.
   */
  lemma RegisteredEntry(st: Registry, z: string, d: string, i: int)
    ensures var st' := Registered(st, z, d, i);
      && st'.draggableToDroppable[d] == z
      && Sorted(st'.orders[z])
      && st'.orderIds[z] == Ids(st'.orders[z])
      && (forall e :: e in st'.orders[z] && e.id == d <==> e == OrderEntry(d, i))
      && (forall j, k :: 0 <= j < k < |st'.orders[z]| ==> st'.orders[z][j].id != d || st'.orders[z][k].id != d)
      && multiset(st'.orders[z]) == multiset(FilterOut(Lookup(st.orders, z), d)) + multiset{OrderEntry(d, i)}
      && (forall z' :: z' != z ==> Lookup(st'.orders, z') == Lookup(st.orders, z'))
      && (forall z' :: z' != z ==> Lookup(st'.orderIds, z') == Lookup(st.orderIds, z'))
  {
    RegisterListProps(Lookup(st.orders, z), d, i);
    RegisterListSingle(Lookup(st.orders, z), d, i);
  }

  /** The registered zone list never holds two entries for `d`. */
  lemma RegisterListSingle(s: seq<OrderEntry>, d: string, i: int)
    ensures var r := RegisterList(s, d, i);
      forall j, k :: 0 <= j < k < |r| ==> r[j].id != d || r[k].id != d
  {
    var r, e := RegisterList(s, d, i), OrderEntry(d, i);
    RegisterListProps(s, d, i);
    FilterOutMembers(s, d);
    assert multiset(r)[e] == 1 by {
      assert e !in FilterOut(s, d);
    }
    forall j, k | 0 <= j < k < |r| ensures r[j].id != d || r[k].id != d {
      if r[j].id == d && r[k].id == d {
        assert false;
      }
    }
  }

  /** Calling `register(z, d, i)` a second time changes nothing. */
  lemma RegisteredTwice(st: Registry, z: string, d: string, i: int)
    ensures Registered(Registered(st, z, d, i), z, d, i) == Registered(st, z, d, i)
  {
    var once := Registered(st, z, d, i);
    var list := once.orders[z];
    RegisterListTwice(Lookup(st.orders, z), d, i);
    assert RegisterList(Lookup(once.orders, z), d, i) == list;
    UpdateSame(once.orders, z, list);
    UpdateSame(once.orderIds, z, Ids(list));
    UpdateSame(once.draggableToDroppable, d, z);
  }

  /** Storing the value a map already holds leaves the map unchanged. */
  lemma UpdateSame<V>(m: map<string, V>, k: string, v: V)
    requires k in m && m[k] == v
    ensures m[k := v] == m
  {
  }

  /** `unregister` keeps the registry consistent. */
  lemma UnregisteredConsistent(st: Registry, draggableId: string)
    requires Consistent(st)
    ensures Consistent(Unregistered(st, draggableId))
  {
    var st' := Unregistered(st, draggableId);
    forall z | z in st'.orders
      ensures ZoneConsistent(st'.orders[z], st'.orderIds[z])
    {
      assert ZoneConsistent(st.orders[z], st.orderIds[z]);
      FilterOutSorted(st.orders[z], draggableId);
      FilterOutNoDup(st.orders[z], draggableId);
    }
    forall d | d in st'.draggableToDroppable
      ensures HoldsEntry(st'.orders, st'.draggableToDroppable[d], d)
    {
      var z := st.draggableToDroppable[d];
      assert HoldsEntry(st.orders, z, d);
      FilterOutKeepsOther(st.orders[z], draggableId, d);
    }
  }

  /** Filtering one draggable out leaves the entries of every other one. */
  lemma FilterOutKeepsOther(s: seq<OrderEntry>, d: string, other: string)
    requires HasId(s, other) && other != d
    ensures HasId(FilterOut(s, d), other)
  {
    var k :| 0 <= k < |s| && s[k].id == other;
    FilterOutMembers(s, d);
    assert s[k] in FilterOut(s, d);
  }

  /**
   * After `unregister(d)` no zone holds an entry for `d` and `d` has no zone;
   * each zone keeps its surviving entries in their original order, and a
   * drag of `d` is no longer reported.
   */
  lemma UnregisteredRemoves(st: Registry, d: string, over: Option<string>)
    ensures var st' := Unregistered(st, d);
      && d !in st'.draggableToDroppable
      && st'.orders.Keys == st.orders.Keys
      && (forall z :: z in st'.orders ==> !HasId(st'.orders[z], d))
      && (forall z, a, b :: z in st.orders && st.orders[z] == a + b ==>
            st'.orders[z] == FilterOut(a, d) + FilterOut(b, d))
      && Resolve(st', d, over).None?
  {
    var st' := Unregistered(st, d);
    forall z | z in st'.orders ensures !HasId(st'.orders[z], d) {
      FilterOutMembers(st.orders[z], d);
      forall k | 0 <= k < |st'.orders[z]| ensures st'.orders[z][k].id != d {
        assert st'.orders[z][k] in st'.orders[z];
      }
    }
    forall z, a, b | z in st.orders && st.orders[z] == a + b
      ensures st'.orders[z] == FilterOut(a, d) + FilterOut(b, d)
    {
      FilterOutConcat(a, b, d);
    }
  }

  /** Unregistering a draggable that no zone holds leaves every list unchanged. */
  lemma UnregisteredAbsent(st: Registry, d: string)
    requires Consistent(st)
    requires forall z :: z in st.orders ==> !HasId(st.orders[z], d)
    ensures Unregistered(st, d).orders == st.orders
    ensures Unregistered(st, d).orderIds == st.orderIds
  {
    forall z | z in st.orders ensures FilterOut(st.orders[z], d) == st.orders[z] {
      FilterOutAbsent(st.orders[z], d);
    }
  }

  /**
   * In a consistent registry, a drag of a draggable that is mapped to a
   * non-empty zone is always reported: the "not in its zone's order" exit is
   * never taken.
   */
  lemma ResolveRegistered(st: Registry, active: string, over: Option<string>)
    requires Consistent(st)
    requires active in st.draggableToDroppable && st.draggableToDroppable[active] != ""
    ensures Resolve(st, active, over).Some?
  {
    var z := st.draggableToDroppable[active];
    IdsHasId(st.orders[z], active);
  }

  /**
   * Right after a draggable registers in a non-empty zone of a consistent
   * registry, dropping it over nothing is reported as a cancellation from
   * that zone.
   */
  lemma RegisteredThenCancel(st: Registry, z: string, d: string, i: int)
    requires Consistent(st) && z != ""
    ensures var r := Resolve(Registered(st, z, d, i), d, None);
      r.Some? && r.value.source.droppableId == z && r.value.destination.None? && r.value.reason == Cancel
  {
    RegisteredConsistent(st, z, d, i);
    ResolveRegistered(Registered(st, z, d, i), d, None);
  }

  /**
   * A `Draggable` outside any zone registers nothing, yet its cleanup still
   * unregisters its id: if another `Draggable` registered the same id in zone
   * `z`, the cleanup removes that entry from every zone and a later drag of
   * the id is no longer reported.
   */
  lemma ZonelessCleanup(st: Registry, z: string, d: string, i: int, over: Option<string>)
    requires Consistent(st) && z != ""
    ensures var registered := Registered(st, z, d, i);
      var cleaned := Unregistered(registered, d);
      && HasId(registered.orders[z], d)
      && Resolve(registered, d, over).Some?
      && d !in cleaned.draggableToDroppable
      && (forall y :: y in cleaned.orders ==> !HasId(cleaned.orders[y], d))
      && Resolve(cleaned, d, over).None?
  {
    var registered := Registered(st, z, d, i);
    RegisteredConsistent(st, z, d, i);
    RegisteredHoldsNew(Lookup(st.orders, z), d, i);
    ResolveRegistered(registered, d, over);
    UnregisteredRemoves(registered, d, over);
  }

  /**
   * The loop invariant of the `unregister` pass over the zones: the zones
   * not in `todo` have been filtered and their id lists rebuilt; the others
   * are as in `st`.
   */
  ghost predicate PassInvariant(st: Registry, d: string, todo: set<string>,
                                orders: map<string, seq<OrderEntry>>, orderIds: map<string, seq<string>>)
  {
    OrdersPassed(st, d, todo, orders) && IdsPassed(st, todo, orders, orderIds)
  }

  /** The entry lists of the zones outside `todo` have been filtered. */
  ghost predicate OrdersPassed(st: Registry, d: string, todo: set<string>, orders: map<string, seq<OrderEntry>>)
  {
    && todo <= orders.Keys == st.orders.Keys
    && (forall z :: z in orders ==>
          orders[z] == if z in todo then st.orders[z] else FilterOut(st.orders[z], d))
  }

  /** The id lists of the zones outside `todo` have been rebuilt from their entry lists. */
  ghost predicate IdsPassed(st: Registry, todo: set<string>,
                            orders: map<string, seq<OrderEntry>>, orderIds: map<string, seq<string>>)
  {
    && orderIds.Keys == st.orderIds.Keys + (orders.Keys - todo)
    && (forall z :: z in orderIds ==>
          orderIds[z] == if z in orders && z !in todo then Ids(orders[z]) else st.orderIds[z])
  }

  /** Visiting one more zone keeps the pass invariant. */
  lemma PassStep(st: Registry, d: string, todo: set<string>,
                 orders: map<string, seq<OrderEntry>>, orderIds: map<string, seq<string>>, z: string)
    requires PassInvariant(st, d, todo, orders, orderIds) && z in todo
    ensures var next := FilterOut(orders[z], d);
      PassInvariant(st, d, todo - {z}, orders[z := next], orderIds[z := Ids(next)])
  {
    var next := FilterOut(orders[z], d);
    OrdersStep(st, d, todo, orders, z);
    IdsStep(st, todo, orders, orderIds, z, next);
  }

  /** Filtering zone `z` moves it out of `todo` for the entry lists. */
  lemma OrdersStep(st: Registry, d: string, todo: set<string>, orders: map<string, seq<OrderEntry>>, z: string)
    requires OrdersPassed(st, d, todo, orders) && z in todo
    ensures OrdersPassed(st, d, todo - {z}, orders[z := FilterOut(orders[z], d)])
  {
    var orders' := orders[z := FilterOut(orders[z], d)];
    forall y | y in orders'
      ensures orders'[y] == if y in todo - {z} then st.orders[y] else FilterOut(st.orders[y], d)
    {
      if y != z {
        assert orders'[y] == orders[y];
      }
    }
  }

  /** Storing zone `z`'s rebuilt id list moves it out of `todo` for the id lists. */
  lemma IdsStep(st: Registry, todo: set<string>, orders: map<string, seq<OrderEntry>>,
                orderIds: map<string, seq<string>>, z: string, next: seq<OrderEntry>)
    requires IdsPassed(st, todo, orders, orderIds) && z in todo && z in orders
    ensures IdsPassed(st, todo - {z}, orders[z := next], orderIds[z := Ids(next)])
  {
    var orders', orderIds' := orders[z := next], orderIds[z := Ids(next)];
    assert orderIds'.Keys == st.orderIds.Keys + (orders'.Keys - (todo - {z}));
    forall y | y in orderIds'
      ensures orderIds'[y] ==
        if y in orders' && y !in todo - {z} then Ids(orders'[y]) else st.orderIds[y]
    {
      if y != z {
        assert orderIds'[y] == orderIds[y];
        assert y in orders' <==> y in orders;
      }
    }
  }

  /** Once no zone is left to visit, the pass has produced what `Unregistered` describes. */
  lemma PassDone(st: Registry, d: string,
                 orders: map<string, seq<OrderEntry>>, orderIds: map<string, seq<string>>)
    requires PassInvariant(st, d, {}, orders, orderIds)
    ensures orders == Unregistered(st, d).orders
    ensures orderIds == Unregistered(st, d).orderIds
  {
    var st' := Unregistered(st, d);
    assert orders.Keys == st'.orders.Keys;
    forall z | z in orders ensures orders[z] == st'.orders[z] {
      assert orders[z] == FilterOut(st.orders[z], d);
    }
    assert orderIds.Keys == st'.orderIds.Keys;
    forall z | z in orderIds ensures orderIds[z] == st'.orderIds[z] {
      if z in orders {
        assert orderIds[z] == Ids(orders[z]);
      }
    }
  }

  /**
   * `DragDropContext`: the three maps it keeps in refs, updated in place by
   * `register` and `unregister`.
   */
  class DragDropContext {
    var orders: map<string, seq<OrderEntry>>
    var draggableToDroppable: map<string, string>
    var orderIds: map<string, seq<string>>

    /** The current contents of the three maps. */
    function State(): Registry
      reads this
    {
      Registry(orders, draggableToDroppable, orderIds)
    }

    ghost predicate Valid()
      reads this
    {
      Consistent(State())
    }

    constructor ()
      ensures Valid() && State() == Empty
    {
      orders, draggableToDroppable, orderIds := map[], map[], map[];
    }

    /** `register(droppableId, draggableId, index)` */
    method Register(droppableId: string, draggableId: string, index: int)
      requires Valid()
      modifies this
      ensures Valid()
      ensures State() == Registered(old(State()), droppableId, draggableId, index)
    {
      RegisteredConsistent(State(), droppableId, draggableId, index);
      draggableToDroppable := draggableToDroppable[draggableId := droppableId];
      var list := if droppableId in orders then orders[droppableId] else [];
      var without := FilterOut(list, draggableId);
      without := SortByIndex(without + [OrderEntry(draggableId, index)]);
      orders := orders[droppableId := without];
      orderIds := orderIds[droppableId := Ids(without)];
    }

    /** `unregister(draggableId)` */
    method Unregister(draggableId: string)
      requires Valid()
      modifies this
      ensures Valid()
      ensures State() == Unregistered(old(State()), draggableId)
    {
      UnregisteredConsistent(State(), draggableId);
      draggableToDroppable := draggableToDroppable - {draggableId};
      FilterEveryZone(draggableId);
    }

    /**
     * The `orders.forEach` pass of `unregister`: filter the draggable out of
     * every zone of `ordersRef`, one zone at a time, and store each zone's
     * new id list.
     */
    method FilterEveryZone(draggableId: string)
      modifies this`orders, this`orderIds
      ensures orders == Unregistered(old(State()), draggableId).orders
      ensures orderIds == Unregistered(old(State()), draggableId).orderIds
    {
      ghost var st := State();
      var zones := orders.Keys;
      while zones != {}
        invariant PassInvariant(st, draggableId, zones, orders, orderIds)
        decreases zones
      {
        var z :| z in zones;
        var next := FilterOut(orders[z], draggableId);
        PassStep(st, draggableId, zones, orders, orderIds, z);
        orders := orders[z := next];
        orderIds := orderIds[z := Ids(next)];
        zones := zones - {z};
      }
      PassDone(st, draggableId, orders, orderIds);
    }

    /**
     * The effect of a mounted `Draggable`: it registers only when it sits
     * inside a `Droppable` whose id is a non-empty string (the effect tests
     * the id for truthiness). Its cleanup is `UnmountDraggable`.
     */
    method MountDraggable(droppableId: Option<string>, draggableId: string, index: int)
      requires Valid()
      modifies this
      ensures Valid()
      ensures droppableId.Some? && droppableId.value != "" ==>
        State() == Registered(old(State()), droppableId.value, draggableId, index)
      ensures droppableId.None? || droppableId.value == "" ==> State() == old(State())
    {
      if droppableId.Some? && droppableId.value != "" {
        Register(droppableId.value, draggableId, index);
      }
    }

    /**
     * The effect's cleanup: it unregisters the draggable whether or not the
     * effect registered it, so it also removes an entry that another
     * `Draggable` with the same id registered.
     */
    method UnmountDraggable(draggableId: string)
      requires Valid()
      modifies this
      ensures Valid()
      ensures State() == Unregistered(old(State()), draggableId)
    {
      Unregister(draggableId);
    }
  }
}
