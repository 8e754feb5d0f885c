/**
 * Worked examples on the five demo items, tying the shim's drop result to
 * the reorder the lists apply, and showing the stale entry `register` leaves
 * behind when a draggable changes zone.
 */
module DropScenarios {
  import opened Wrappers
  import opened Items
  import opened OrderTable
  import opened DropResults
  import opened DndKitList
  import opened SpliceReorder

  /** The ids of the demo items, in their initial order. */
  const DemoIds: seq<string> := ["1", "2", "3", "4", "5"]

  /** The five demo items registered, in order, in the zone "list". */
  function ListZone(): Registry
  {
    Registry(
      map["list" := [OrderEntry("1", 0), OrderEntry("2", 1), OrderEntry("3", 2),
                     OrderEntry("4", 3), OrderEntry("5", 4)]],
      map["1" := "list", "2" := "list", "3" := "list", "4" := "list", "5" := "list"],
      map["list" := DemoIds])
  }

  /** The first occurrence of each demo id is its position. */
  lemma DemoIndexOf(k: nat)
    requires k < 5
    ensures IndexOf(DemoIds, DemoIds[k]) == k
  {
  }

  /**
   * Dragging the first item and releasing it over the fourth reports
   * source 0 and destination 3 in "list".
   */
  lemma DragFirstOverFourth()
    ensures Resolve(ListZone(), "1", Some("4")) ==
      Some(DropResult("1", DefaultType, Location(0, "list"), Some(Location(3, "list")), Drop))
  {
    DemoIndexOf(0);
    DemoIndexOf(3);
    assert Lookup(ListZone().orderIds, "list") == DemoIds;
  }

  /** Applying that drop result moves item one behind item four. */
  lemma FirstBehindFourth()
    ensures Moved(InitialItems, 0, 3) ==
      [InitialItems[1], InitialItems[2], InitialItems[3], InitialItems[0], InitialItems[4]]
  {
    MovedIsShifted(InitialItems, 0, 3);
  }

  /** Releasing the third item outside any known item reports a cancellation. */
  lemma DragThirdOverNothing()
    ensures Resolve(ListZone(), "3", None) ==
      Some(DropResult("3", DefaultType, Location(2, "list"), None, Cancel))
  {
    DemoIndexOf(2);
    assert Lookup(ListZone().orderIds, "list") == DemoIds;
  }

  /**
   * The shim's `Draggable`s are not drop targets; only the `Droppable` zone
   * is, so the engine reports the zone id as `over`. That id is not in the
   * zone's order of draggable ids, so the drop is reported as a
   * cancellation.
   */
  lemma DropOverZoneCancels()
    ensures Resolve(ListZone(), "1", Some("list")) ==
      Some(DropResult("1", DefaultType, Location(0, "list"), None, Cancel))
  {
    DemoIndexOf(0);
    assert Lookup(ListZone().orderIds, "list") == DemoIds;
    assert "list" !in DemoIds;
  }

  /** The registry written out above is a consistent one. */
  lemma ListZoneConsistent()
    ensures Consistent(ListZone())
  {
    var st := ListZone();
    var entries := st.orders["list"];
    forall d | d in st.draggableToDroppable
      ensures HoldsEntry(st.orders, st.draggableToDroppable[d], d)
    {
      assert d in DemoIds;
      var k := IndexOf(DemoIds, d);
      assert entries[k].id == d;
    }
  }

  /** Registering `x` at index 0 in an empty zone gives a one-entry zone. */
  lemma RegisterIntoEmpty(x: string)
    ensures RegisterList([], x, 0) == [OrderEntry(x, 0)]
  {
    var e := OrderEntry(x, 0);
    assert FilterOut([], x) == [];
    assert [e][..0] == [];
    assert SortByIndex([e]) == [e];
  }

  /**
   * Registering "x" in zone "b" after zone "a" does not remove it from "a":
   * both zones hold an entry for it, and a drag of "x" is reported from "b".
   */
  lemma StaleEntryAfterZoneChange()
    ensures var st := Registered(Registered(Empty, "a", "x", 0), "b", "x", 0);
      && HasId(st.orders["a"], "x")
      && HasId(st.orders["b"], "x")
      && Resolve(st, "x", None).Some?
      && Resolve(st, "x", None).value.source.droppableId == "b"
  {
    var st1 := Registered(Empty, "a", "x", 0);
    EmptyConsistent();
    RegisteredConsistent(Empty, "a", "x", 0);
    RegisteredHoldsNew([], "x", 0);
    RegisteredEntry(st1, "b", "x", 0);
    RegisteredHoldsNew(Lookup(st1.orders, "b"), "x", 0);
    RegisteredThenCancel(st1, "b", "x", 0);
  }
}
