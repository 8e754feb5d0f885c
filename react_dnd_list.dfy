/**
 * The react-dnd demo list: a `reorder` that returns its input unchanged when
 * the two indices are equal, and a drop handler that only moves an item
 * dropped onto a row at a different position.
 */
module ReactDndList {
  import opened Items
  import SpliceReorder

  /**
   * `reorder(list, startIndex, endIndex)`: equal indices return the very same
   * array, whatever their value; otherwise the result is a fresh copy with
   * the element moved, and the input is left as it was.
   */
  method Reorder(list: array<ListItem>, startIndex: int, endIndex: int) returns (result: array<ListItem>)
    requires startIndex != endIndex ==> 0 <= startIndex < list.Length && 0 <= endIndex < list.Length
    ensures startIndex == endIndex ==> result == list
    ensures startIndex != endIndex ==>
      fresh(result) && result[..] == SpliceReorder.Moved(list[..], startIndex, endIndex)
  {
    if startIndex == endIndex {
      return list;
    }
    result := SpliceReorder.Reorder(list, startIndex, endIndex);
  }

  /**
   * The row's `drop` handler followed by `moveItem`: the items are reordered
   * from the dragged row's index to this row's index only when the two
   * differ; otherwise the state is left as it is.
   */
  method Drop(items: array<ListItem>, draggedIndex: int, index: int) returns (next: array<ListItem>)
    requires draggedIndex != index ==> 0 <= draggedIndex < items.Length && 0 <= index < items.Length
    ensures draggedIndex == index ==> next == items
    ensures draggedIndex != index ==>
      fresh(next) && next[..] == SpliceReorder.Moved(items[..], draggedIndex, index)
  {
    if draggedIndex != index {
      next := Reorder(items, draggedIndex, index);
    } else {
      next := items;
    }
  }
}
