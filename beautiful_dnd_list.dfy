/**
 * The react-beautiful-dnd demo list: its drag-end handler reorders the items
 * by the reported source and destination indices, and leaves them alone
 * when the drop has no destination.
 */
module BeautifulDndList {
  import opened Items
  import opened DropResults
  import opened SpliceReorder

  /**
   * `onDragEnd(result)` applied to the current items: a `null` destination
   * returns early and keeps the same array; otherwise the items become a
   * fresh array holding `reorder(items, source.index, destination.index)`.
   */
  method OnDragEnd(items: array<ListItem>, result: DropResult) returns (next: array<ListItem>)
    requires result.destination.Some? ==>
      result.source.index < items.Length && result.destination.value.index < items.Length
    ensures result.destination.None? ==> next == items
    ensures result.destination.Some? ==>
      fresh(next) &&
      next[..] == Moved(items[..], result.source.index, result.destination.value.index)
  {
    if result.destination.None? {
      return items;
    }
    next := Reorder(items, result.source.index, result.destination.value.index);
  }
}
