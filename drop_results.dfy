/**
 * The react-beautiful-dnd `DropResult` shape that the DndKit compatibility
 * shim produces and the list demos consume.
 */
module DropResults {
  import opened Wrappers

  /** `{ index, droppableId }`: a position inside a drop zone. */
  datatype Location = Location(index: nat, droppableId: string)

  /** `'DROP' | 'CANCEL'` */
  datatype Reason = Drop | Cancel

  /**
   * `{ draggableId, type, source, destination, reason }`; `destination` is
   * `null` for a cancelled drag (`dropType` stands for the field `type`, a
   * Dafny keyword).
   */
  datatype DropResult = DropResult(
    draggableId: string,
    dropType: string,
    source: Location,
    destination: Option<Location>,
    reason: Reason)

  /** The only `type` the shim ever reports. */
  const DefaultType: string := "DEFAULT"
}
