# Drag-and-drop list demos: reorder helpers and the DndKit compatibility shim

The dnd-poc app shows one five-item list reordered by several
drag-and-drop libraries. This project models the parts of it that carry logic:

- **The react-beautiful-dnd compatibility shim in `DndKitList.tsx`.** Its
  `DragDropContext` keeps three maps: per zone, a list of `{id, index}`
  entries (`ordersRef`); per draggable, its zone (`draggableToDroppable`);
  per zone, the ids of its entries (`orderIdsRef`). `Draggable`s call
  `register` and `unregister` from an effect. `handleDragEnd` turns a
  finished drag `(active, over)` into a react-beautiful-dnd `DropResult`.
  - `DndKitList.Registry` holds the three maps.
  - `Registered`, `Unregistered` and `Resolve` are the operations as
    functions on that value.
  - The class `DndKitList.DragDropContext` keeps the maps as fields and
    updates them in place the way the source does, proved equal to those
    functions. Its `unregister` pass is a loop over the zones.
  - `Consistent` is the invariant both operations keep. Each zone's id list
    is the id projection of its entry list. Each entry list is sorted by
    index and free of duplicate ids. Every draggable's zone holds an entry
    for it.
- **The `reorder` helper.** Every list copies the array (`Array.from`),
  splices the element at `startIndex` out and splices it back in at
  `endIndex`. `SpliceReorder.Reorder` does this on a fresh Dafny array, one
  shifted slot at a time. It is proved equal to the sequence function
  `Moved`. `Shifted` is a second, position-by-position definition of the
  same move. The lemmas about `Moved` prove it is a permutation, that the
  element lands at the destination, that the other elements keep their
  order, the equal-index case and the round trip.
- **The list handlers that call `reorder`.**
  - `BeautifulDndList` and `PragmaticMigrationDndList`: `onDragEnd` does
    nothing when the destination is `null`.
  - `ReactDndList`: its own `reorder` returns the list unchanged when the
    two indices are equal. Its drop guard does the same.

Modelling choices:

- JavaScript's `Array.prototype.sort` is stable. `OrderTable.SortByIndex`
  is therefore a stable insertion sort: a new entry goes after every
  existing entry with an equal index.
- `register` does not remove an entry the draggable may still have in
  another zone. The model keeps this behaviour (`RegisteredEntry`,
  `DropScenarios.StaleEntryAfterZoneChange`). As a result, `Consistent`
  asks only that a draggable's *current* zone holds it.
- `handleDragEnd` hands its result to a callback. The model returns it as
  an `Option<DropResult>`: `None` stands for "no callback".
- `if (!droppableId)` treats the empty string as "no zone". The model does
  the same, both in `Resolve` and in `MountDraggable`.
- Only `Droppable` registers a drop target with the engine
  (`src/lists/DndKitList.tsx:153`); `Draggable` registers only a draggable
  (`src/lists/DndKitList.tsx:197`). The engine's `over` is therefore a zone
  id, which is never in the zone's order of draggable ids, and such a drop
  resolves to a cancellation (`DropScenarios.DropOverZoneCancels`). `Resolve`
  is stated for any `over`, so it also covers an engine that reports an item
  id, as in `DropScenarios.DragFirstOverFourth`.
- `ListItem`'s field `label` is called `text`, and `DropResult`'s field
  `type` is called `dropType`, because both names are Dafny keywords.

## Model

| member | source | states |
|---|---|---|
| SpliceReorder.Removed | src/lists/BeautifulDndList.tsx:7 | `splice(i, 1)` as a value: one element shorter, elements before `i` in place, elements after it one position earlier |
| SpliceReorder.Inserted | src/lists/BeautifulDndList.tsx:8 | `splice(i, 0, x)` as a value: one element longer, `x` at `i`, elements before it in place, elements from `i` on one position later |
| SpliceReorder.Moved | src/lists/PragmaticMigrationDndList.tsx:15-16 | The two splices of `reorder` in sequence; keeps the length (its other properties are the `Moved*` lemmas below) |
| SpliceReorder.Shifted | src/lists/ReactDndList.tsx:11-12 | An independent position-by-position description of a move, of the input's length; `MovedIsShifted` ties it to `Moved` |
| SpliceReorder.Reorder | src/lists/BeautifulDndList.tsx:5-10 | For in-range indices, returns a newly allocated array (the input cannot be modified) whose contents are `Moved(list, startIndex, endIndex)` |
| SpliceReorder.SpliceOut | src/lists/BeautifulDndList.tsx:7 | `splice(i, 1)` on a prefix: returns the element that was at `i` and leaves the prefix without it |
| SpliceReorder.SpliceIn | src/lists/BeautifulDndList.tsx:8 | `splice(i, 0, x)` on a prefix: the new prefix is the old one with `x` inserted at `i` |
| SpliceReorder.MovedIsShifted | src/lists/PragmaticMigrationDndList.tsx:13-18 | The splice-based move equals the position-by-position definition: the moved element is at `to`, elements between the two positions shift by one, the rest stay put |
| SpliceReorder.MovedIsPermutation | src/lists/ReactDndList.tsx:10-12 | For in-range indices the result has the input's length and the same multiset of elements |
| SpliceReorder.MovedLandsAt | src/lists/BeautifulDndList.tsx:7-8 | `result[endIndex] == list[startIndex]` |
| SpliceReorder.MovedKeepsOthers | src/lists/PragmaticMigrationDndList.tsx:15-16 | Removing the moved element from the input and from the result gives the same sequence, so the other elements keep their relative order |
| SpliceReorder.MovedSameIndex | src/lists/BeautifulDndList.tsx:7-8 | With equal indices the splice pair returns a list equal to the input, not a deletion |
| SpliceReorder.MovedBack | src/lists/PragmaticMigrationDndList.tsx:13-18 | Moving `s -> e` and then `e -> s` restores the original list |
| ReactDndList.Reorder | src/lists/ReactDndList.tsx:8-14 | Equal indices return the very same array; otherwise, for in-range indices, a newly allocated array holding `Moved(list, startIndex, endIndex)` |
| ReactDndList.Drop | src/lists/ReactDndList.tsx:33-37 | The drop handler moves the item only when the dragged index differs from the target index, into a newly allocated array; otherwise the items are the same array |
| BeautifulDndList.OnDragEnd | src/lists/BeautifulDndList.tsx:15-18 | A `null` destination leaves the items as they are; otherwise the new items are a newly allocated array holding the move from `source.index` to `destination.index` |
| PragmaticMigrationDndList.OnDragEnd | src/lists/PragmaticMigrationDndList.tsx:23-26 | A `null` destination leaves the items as they are; otherwise the new items are a newly allocated array holding the move from `source.index` to `destination.index` |
| OrderTable.Ids | src/lists/DndKitList.tsx:85 | `map((e) => e.id)`: the ids of the entries, in order; `IdsHasId` characterises its members |
| OrderTable.FilterOut | src/lists/DndKitList.tsx:81 | `filter((e) => e.id !== d)`: never longer than its input; `FilterOutMembers` says which entries survive and `FilterOutConcat` that their order is kept |
| OrderTable.InsertLast | src/lists/DndKitList.tsx:83 | One step of the stable sort: the last entry goes in at `InsertPos`; `InsertLastMultiset`, `InsertLastSorted` and `InsertLastStable` state its effect |
| OrderTable.SortByIndex | src/lists/DndKitList.tsx:83 | The stable sort by index; `SortByIndexProps` proves it returns a sorted permutation |
| OrderTable.RegisterList | src/lists/DndKitList.tsx:80-83 | The list `register` stores for its zone; `RegisterListProps`, `RegisterListNoDup`, `RegisterListStable` and `RegisterListTwice` state what it holds |
| OrderTable.IdsHasId | src/lists/DndKitList.tsx:85 | An id is in the projected id list exactly when some entry carries it |
| OrderTable.FilterOutMembers | src/lists/DndKitList.tsx:81 | Exactly the entries whose id differs from the filtered one survive the filter |
| OrderTable.FilterOutConcat | src/lists/DndKitList.tsx:92 | Filtering distributes over concatenation, so survivors keep their relative order |
| OrderTable.FilterOutAbsent | src/lists/DndKitList.tsx:92 | Filtering out an id the list lacks leaves the list unchanged |
| OrderTable.FilterOutSorted | src/lists/DndKitList.tsx:92 | Filtering keeps a list sorted by index |
| OrderTable.FilterOutNoDup | src/lists/DndKitList.tsx:92 | Filtering keeps ids unique |
| OrderTable.InsertPos | src/lists/DndKitList.tsx:83 | The stable sort's insertion point: every entry after it has a greater index, the one before it has an index no greater |
| OrderTable.SortByIndexProps | src/lists/DndKitList.tsx:83 | The stable sort by index returns a sorted permutation of its input |
| OrderTable.SortByIndexNoDup | src/lists/DndKitList.tsx:83 | Sorting keeps ids unique |
| OrderTable.SortByIndexSorted | src/lists/DndKitList.tsx:83 | Sorting an already sorted list leaves it unchanged |
| OrderTable.SortPushed | src/lists/DndKitList.tsx:82-83 | Sorting a list with one entry pushed is one insertion step on the sorted list |
| OrderTable.RegisterListProps | src/lists/DndKitList.tsx:80-83 | The registered zone list is sorted and holds exactly the new entry `{d, i}` plus the old entries whose id is not `d` |
| OrderTable.RegisterListNoDup | src/lists/DndKitList.tsx:80-83 | A zone list with unique ids keeps unique ids after registering, so `d` has exactly one entry |
| OrderTable.RegisterListStable | src/lists/DndKitList.tsx:82-83 | On a sorted list, the new entry lands after every surviving entry with an index at most `i` and before all others, which keep their order |
| OrderTable.RegisterListTwice | src/lists/DndKitList.tsx:80-83 | Registering the same `(d, i)` twice gives the list that registering once gives |
| DndKitList.Registered | src/lists/DndKitList.tsx:77-86 | `register` on a snapshot of the three maps; `RegisteredConsistent`, `RegisteredEntry` and `RegisteredTwice` state its effect |
| DndKitList.Unregistered | src/lists/DndKitList.tsx:88-96 | `unregister` on a snapshot of the three maps; `UnregisteredConsistent`, `UnregisteredRemoves` and `UnregisteredAbsent` state its effect |
| DndKitList.IndexOf | src/lists/DndKitList.tsx:119 | `indexOf`: `-1` exactly when the id is absent, otherwise the position of its first occurrence |
| DndKitList.Resolve | src/lists/DndKitList.tsx:113-134 | No result exactly when `active` has no zone, its zone is `""`, or it is missing from the zone's order. Otherwise: `draggableId == active`, type `DEFAULT`, source = zone and first position of `active`. A destination exists iff `over` is given and found in that order, with the same zone and `over`'s first position. Reason is `DROP` iff there is a destination |
| DndKitList.EmptyConsistent | src/lists/DndKitList.tsx:73-75 | The three empty maps of a new context satisfy the invariant |
| DndKitList.RegisteredConsistent | src/lists/DndKitList.tsx:77-86 | `register` keeps the invariant: id lists project entry lists, entry lists sorted and duplicate-free, every draggable's zone holds it |
| DndKitList.RegisteredHoldsNew | src/lists/DndKitList.tsx:81-82 | After registering, the zone list holds an entry for `d` |
| DndKitList.RegisteredHoldsOld | src/lists/DndKitList.tsx:81 | Registering `d` keeps every other draggable's entry in the zone |
| DndKitList.RegisteredEntry | src/lists/DndKitList.tsx:77-86 | After `register(z, d, i)`: `d` maps to `z`; `z`'s list is sorted and its ids are its projection; every entry with id `d` is `{d, i}`, no two positions hold id `d`, and the list's multiset is the old list without `d`'s entries plus `{d, i}`; every other zone, including one still holding a stale `d`, is unchanged |
| DndKitList.RegisterListSingle | src/lists/DndKitList.tsx:81-83 | The registered zone list never holds two entries with id `d` |
| DndKitList.RegisteredTwice | src/lists/DndKitList.tsx:77-86 | Calling `register(z, d, i)` twice in a row leaves the state of the first call |
| DndKitList.UnregisteredConsistent | src/lists/DndKitList.tsx:88-96 | `unregister` keeps the invariant |
| DndKitList.FilterOutKeepsOther | src/lists/DndKitList.tsx:92 | Unregistering `d` keeps every other draggable's entry in each zone |
| DndKitList.UnregisteredRemoves | src/lists/DndKitList.tsx:88-96 | After `unregister(d)`: `d` has no zone, no zone holds an entry for it, the zone keys are the same, survivors keep their order, and a drag of `d` yields no result |
| DndKitList.UnregisteredAbsent | src/lists/DndKitList.tsx:88-96 | In a consistent registry, unregistering a draggable that no zone holds leaves every entry list and id list unchanged |
| DndKitList.ResolveRegistered | src/lists/DndKitList.tsx:116-120 | In a consistent registry, a draggable mapped to a non-empty zone is always found in its zone's order, so a result is always produced |
| DndKitList.RegisteredThenCancel | src/lists/DndKitList.tsx:121-131 | Right after registering in a non-empty zone, a drag over nothing is a `CANCEL` from that zone with no destination |
| DndKitList.ZonelessCleanup | src/lists/DndKitList.tsx:202-205 | A `Draggable` outside any zone registers nothing, but its cleanup still unregisters its id: an entry another `Draggable` registered under the same id is removed from every zone, and a later drag of that id yields no result |
| DndKitList.PassStep | src/lists/DndKitList.tsx:91-95 | Visiting one more zone in the `forEach` pass keeps the pass invariant |
| DndKitList.PassDone | src/lists/DndKitList.tsx:91-95 | When no zone is left, the pass has produced the maps `unregister` describes |
| DndKitList.DragDropContext.constructor | src/lists/DndKitList.tsx:73-75 | A new context has three empty maps and satisfies the invariant |
| DndKitList.DragDropContext.Register | src/lists/DndKitList.tsx:77-86 | Updates the maps in place to `Registered(old state, droppableId, draggableId, index)` and keeps the invariant |
| DndKitList.DragDropContext.Unregister | src/lists/DndKitList.tsx:88-96 | Updates the maps in place to `Unregistered(old state, draggableId)` and keeps the invariant |
| DndKitList.DragDropContext.FilterEveryZone | src/lists/DndKitList.tsx:91-95 | The loop over all zones leaves each zone's entries filtered and its id list rebuilt, as `Unregistered` describes |
| DndKitList.DragDropContext.MountDraggable | src/lists/DndKitList.tsx:202-203 | A `Draggable` registers only inside a zone with a non-empty id; with no zone or `""` the state is unchanged |
| DndKitList.DragDropContext.UnmountDraggable | src/lists/DndKitList.tsx:204 | The effect's cleanup unregisters the draggable whatever its zone: the new state is `Unregistered(old state, draggableId)` and the invariant holds |
| DropScenarios.DemoIndexOf | src/types.ts:6-12 | Each demo id first occurs at its own position |
| DropScenarios.DragFirstOverFourth | src/lists/DndKitList.tsx:113-134 | Dragging item "1" over item "4" in zone "list" reports a `DROP` from index 0 to index 3 |
| DropScenarios.FirstBehindFourth | src/lists/BeautifulDndList.tsx:5-10 | Moving index 0 to 3 in the demo items gives items two, three, four, one, five |
| DropScenarios.DragThirdOverNothing | src/lists/DndKitList.tsx:121-131 | Dropping item "3" over nothing reports a `CANCEL` from index 2 with no destination |
| DropScenarios.DropOverZoneCancels | src/lists/DndKitList.tsx:121-129 | With the zone id "list" as `over`, the id is not in the zone's order of draggable ids, so the drop is a `CANCEL` from index 0 with no destination |
| DropScenarios.ListZoneConsistent | src/lists/DndKitList.tsx:77-86 | The registry holding the five demo items in zone "list" satisfies the invariant |
| DropScenarios.RegisterIntoEmpty | src/lists/DndKitList.tsx:80-84 | Registering into an empty zone gives a one-entry list |
| DropScenarios.StaleEntryAfterZoneChange | src/lists/DndKitList.tsx:77-86 | Registering "x" in zone "b" after zone "a" leaves an entry for "x" in both zones; a drag of "x" is reported from "b" |

## Left out

- React machinery is not modelled. This covers hooks, refs, memoisation, the context providers, the missing-provider throw, `Droppable` rendering, and the `provided`/`snapshot` objects and styles. The ref maps are modelled as the fields of `DragDropContext`.
- The drag engines are not modelled: the @dnd-kit sensors and `closestCenter` collision detection, react-dnd's HTML5 backend, and pragmatic-dnd's element adapters. Their outcome is the `(active, over)` pair, which `Resolve` takes as input.
- `arrayMove` and `reorderUtil` are library functions whose code is not part of this model. For that reason the plain `DndKitList` component's own `handleDragEnd` and the `PragmaticDndList` component are not modelled either.
- Out-of-range and negative splice indices are not modelled. `reorder` and the handlers require in-range indices. JavaScript would count negative indices from the end, or insert `undefined`, but callers only pass positions of rendered rows.
- JavaScript numbers are modelled as `int` for `index` and as `nat` for result positions. NaN, infinities and fractional indices are not modelled.
- The order in which React runs the effects of different `Draggable`s is not modelled. Each operation is modelled on its own, and the invariant holds after any sequence of `Register`/`Unregister` calls.
- The `onDragEnd` callback is not invoked. `Resolve` returns the `DropResult` that would be passed to it, or `None` when no call is made.
- `setItems` is not modelled as a state update. The handlers return the new items array instead.
- `getOrderRef` exposure to consumers is not modelled. Consumers see the same `orderIds` map that the model keeps.
- DndKitList.UnregisteredAbsent: proves the id lists unchanged only for a consistent registry, because `unregister` rebuilds each id list from the entry list.
