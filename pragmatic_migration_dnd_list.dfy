/**
 * The demo list built on the pragmatic-drag-and-drop react-beautiful-dnd
 * migration layer. Its `reorder` helper is the same copy-and-splice as the
 * react-beautiful-dnd list's (`SpliceReorder.Reorder`), and so is its guard.
 */
module PragmaticMigrationDndList {
  import opened Items
  import opened DropResults
  import opened SpliceReorder

  /**
   * `onDragEnd(result)` applied to the current items: nothing changes for a
   * drop without destination; otherwise the items are reordered by the
   * source and destination indices.
   */
  method OnDragEnd(items: array<ListItem>, result: DropResult) returns (next: array<ListItem>)
    requires result.destination.Some? ==>
      result.source.index < items.Length && result.destination.value.index < items.Length
    ensures result.destination.None? ==> next == items
    ensures result.destination.Some? ==>
      fresh(next) &&
      next[..] == Moved(items[..], result.source.index, result.destination.value.index)
  {
    if result.destination.None? {
      return items;
    }
    next := Reorder(items, result.source.index, result.destination.value.index);
  }
}
