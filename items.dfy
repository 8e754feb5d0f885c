/** The element type every demo list renders and reorders. */
module Items {

  /** One list row: a stable identifier and the text shown for it (`label` in
      the source; `label` is a Dafny keyword). */
  datatype ListItem = ListItem(id: string, text: string)

  /** The five rows every demo list starts from; their ids are distinct. */
  const InitialItems: seq<ListItem> := [
    ListItem("1", "Item one"),
    ListItem("2", "Item two"),
    ListItem("3", "Item three"),
    ListItem("4", "Item four"),
    ListItem("5", "Item five")
  ]
}
