# pdfsam selection and load events in Dafny

A model of two pieces of model-layer state in PDF Split And Merge (pdfsam), with proofs of their behaviour.

- `SelectionChangedEvent` (module `Selection`, file `selection.dfy`). The document table publishes this event when its row selection changes. It stores the lowest selected row (`top`), the highest (`bottom`) and the number of rows in the table (`totalRows`). A cleared selection is encoded by the sentinels `top == Integer.MAX_VALUE` and `bottom == -1`. The event answers whether the selection is cleared, whether it is a single row, and whether it can be moved up or down.
  - It is a class, because the source updates the fields in place.
  - The constructor folds the selected indices into `top` and `bottom` with a loop. That loop is proved against the functions `SelectedTop` and `SelectedBottom`.
  - `OfTotalRows` rejects a negative count. Otherwise it sets the count in place and returns the same event.
  - The lemmas state what each query means in terms of the selected indices.
- `BasePdfLoadEvent` (module `Pdf`, file `pdf.dfy`). This is an append-only collection of document descriptors. Its field `documents` is a `seq<T>`. `T` stands for `PdfDocumentDescriptor`, which the event never inspects.
  - `getDocuments` returns an unmodifiable view that reads through to the event. It is modelled as a `DocumentsView` object whose `Items()` reads the event's current documents.
- `support.dfy` (module `Support`) holds Java's `int` (`Int32`), a nullable reference (`Option`), and the `IllegalArgumentException` that `RequireUtils` throws (`Error`, returned inside a `Result`).

`Selection.SelectionScenarios` is a client method with no contract of its own. Its assertions replay typical selections a table controller makes, and the answers it gets:
- `select({3})` is a single selection.
- `select({2,5,7})` spans rows 2 to 7.
- With `{4}`, moves are feasible or not as `ofTotalRows(10)` and `ofTotalRows(5)` decide.
- `ofTotalRows(-1)` fails and leaves the event as it was.
- `select` of an empty collection answers every query as a cleared selection does.
- `select(null)` fails.

Behaviour the code has that a reader might not expect, kept in the model:
- `bottom` starts at -1. If every selected index is below -1, `bottom` stays at -1 instead of becoming the largest index (`SelectedBottomFloor`). Table rows are never negative, so this does not arise in use. `SelectedRowRange` shows that for row indices `top` and `bottom` are exactly the least and greatest selected row.
- Nothing ties `bottom` to `totalRows`. An event can select rows beyond the count it is given, and `canMove` simply compares the numbers. The model accepts this, as the code does.
- `getDocuments` returns `Collections.unmodifiableCollection(documents)`. This is a live read-only view, not a copy taken at call time. So a view taken earlier sees later additions (`LoadSession` ends with `view.Items() == event.documents` for a view taken before it started).
- `select` takes any `Collection`, not only a set, and visits it in iteration order. The model takes a `seq`, and `SelectIgnoresOrder` proves that order and repetition do not matter.

## Model

| member | source | states |
|---|---|---|
| `Selection.SelectedTop` | pdfsam-fx/src/main/java/org/pdfsam/ui/selection/SelectionChangedEvent.java:42-45 | the fold of `Math.min` from `Integer.MAX_VALUE` is that value for no indices, and otherwise one of the indices that is no greater than any other |
| `Selection.SelectedBottom` | pdfsam-fx/src/main/java/org/pdfsam/ui/selection/SelectionChangedEvent.java:42-45 | the fold of `Math.max` from -1 is at least -1 and at least every index, and it is -1 or one of the indices |
| `Selection.SelectionChangedEvent.OfSelected` | pdfsam-fx/src/main/java/org/pdfsam/ui/selection/SelectionChangedEvent.java:36-46 | the constructor loop leaves `top`/`bottom` equal to the two folds over the indices and `totalRows` at 0; the event is valid, and it is cleared exactly when no index was given |
| `Selection.SelectionChangedEvent.Cleared` | pdfsam-fx/src/main/java/org/pdfsam/ui/selection/SelectionChangedEvent.java:36-50 | the argument-less constructor leaves the sentinels `Integer.MAX_VALUE`/-1 and a row count of 0, which is a cleared selection |
| `Selection.SelectionChangedEvent.ClearSelectionEvent` | pdfsam-fx/src/main/java/org/pdfsam/ui/selection/SelectionChangedEvent.java:80-82 | returns a fresh event that is cleared, not single, cannot move either way, and has 0 rows |
| `Selection.SelectionChangedEvent.Select` | pdfsam-fx/src/main/java/org/pdfsam/ui/selection/SelectionChangedEvent.java:88-90 | a null collection fails with the `requireNotNull` message "Input selection cannot be null"; otherwise returns a fresh valid event whose `top`/`bottom` are the folds of the indices, with 0 rows |
| `Selection.SelectionChangedEvent.OfTotalRows` | pdfsam-fx/src/main/java/org/pdfsam/ui/selection/SelectionChangedEvent.java:96-100 | a negative count fails with "Cannot select rows if no row is available" and changes nothing; otherwise the same event is returned with `getTotalRows()` equal to the count; `top`, `bottom`, the cleared and single answers and `canMove(UP)` never change |
| `Selection.SelectionChangedEvent.GetTotalRows` | pdfsam-fx/src/main/java/org/pdfsam/ui/selection/SelectionChangedEvent.java:73-75 | the row count of a valid event is never negative |
| `Selection.SelectionChangedEvent.IsClearSelection` | pdfsam-fx/src/main/java/org/pdfsam/ui/selection/SelectionChangedEvent.java:55-57 | true exactly when `top` and `bottom` both hold their sentinels; what that means for the selected indices is stated by `SelectedClearIffEmpty` |
| `Selection.SelectionChangedEvent.IsSingleSelection` | pdfsam-fx/src/main/java/org/pdfsam/ui/selection/SelectionChangedEvent.java:62-64 | true exactly when the selection is not cleared and `top == bottom`; its meaning for the selected indices is stated by `SelectedSingleIff` |
| `Selection.SelectionChangedEvent.CanMove` | pdfsam-fx/src/main/java/org/pdfsam/ui/selection/SelectionChangedEvent.java:66-71 | `Down` checks `bottom` against the last row and any other direction checks `top` against row 0, both only for a selection that is not cleared; its meaning is stated by `SelectedCanMoveUpIff`, `SelectedCanMoveDownIff` and `ClearedNeverMoves` |
| `Selection.SelectedClearIffEmpty` | pdfsam-fx/src/main/java/org/pdfsam/ui/selection/SelectionChangedEvent.java:55-57 | an event built from a collection of indices is cleared if and only if the collection is empty |
| `Selection.SelectedSingleIff` | pdfsam-fx/src/main/java/org/pdfsam/ui/selection/SelectionChangedEvent.java:62-64 | an event built from indices is a single selection if and only if they are all one index, and that index is not below -1 |
| `Selection.SelectedCanMoveUpIff` | pdfsam-fx/src/main/java/org/pdfsam/ui/selection/SelectionChangedEvent.java:66-71 | `canMove(UP)` holds if and only if some index is selected and every selected index is above row 0 |
| `Selection.SelectedCanMoveDownIff` | pdfsam-fx/src/main/java/org/pdfsam/ui/selection/SelectionChangedEvent.java:66-71 | `canMove(DOWN)` holds if and only if some index is selected, the table has rows, and every selected index is below the last row |
| `Selection.ClearedNeverMoves` | pdfsam-fx/src/main/java/org/pdfsam/ui/selection/SelectionChangedEvent.java:66-71 | a cleared event cannot move in either direction, whatever its row count |
| `Selection.EmptySelectionIsClearSelection` | pdfsam-fx/src/main/java/org/pdfsam/ui/selection/SelectionChangedEvent.java:42-45 | an event selected from an empty collection and one made by `clearSelectionEvent()` are both cleared, neither is single, and neither can move, whatever their row counts |
| `Selection.SelectIgnoresOrder` | pdfsam-fx/src/main/java/org/pdfsam/ui/selection/SelectionChangedEvent.java:42-45 | two collections with the same indices, in any order and with any repetition, give the same `top` and `bottom` |
| `Selection.SelectedRowRange` | pdfsam-fx/src/main/java/org/pdfsam/ui/selection/SelectionChangedEvent.java:42-45 | for a non-empty selection of row indices (none negative), `0 <= top <= bottom`, and both are selected rows |
| `Selection.SelectedBottomFloor` | pdfsam-fx/src/main/java/org/pdfsam/ui/selection/SelectionChangedEvent.java:37-45 | if every selected index is below -1, `bottom` stays -1, which is not a selected index, and `top` is below it |
| `Pdf.BasePdfLoadEvent.constructor` | pdfsam-core/src/main/java/org/pdfsam/pdf/BasePdfLoadEvent.java:34 | a new event holds no documents |
| `Pdf.BasePdfLoadEvent.Add` | pdfsam-core/src/main/java/org/pdfsam/pdf/BasePdfLoadEvent.java:36-38 | returns true and appends the descriptor after the existing ones, duplicates included; the old contents are a prefix of the new ones |
| `Pdf.BasePdfLoadEvent.AddAll` | pdfsam-core/src/main/java/org/pdfsam/pdf/BasePdfLoadEvent.java:40-42 | appends the batch in its order after the existing documents, keeping the old contents as a prefix; returns true exactly when the batch is non-empty |
| `Pdf.BasePdfLoadEvent.GetDocuments` | pdfsam-core/src/main/java/org/pdfsam/pdf/BasePdfLoadEvent.java:44-46 | changes nothing and returns a view over this event that shows exactly its current documents |
| `Pdf.DocumentsView.constructor` | pdfsam-core/src/main/java/org/pdfsam/pdf/BasePdfLoadEvent.java:45 | the wrapper is bound to the event it was made for and shows exactly that event's documents |
| `Pdf.DocumentsView.Items` | pdfsam-core/src/main/java/org/pdfsam/pdf/BasePdfLoadEvent.java:45 | what the wrapper shows is the event's documents at the time of reading, not a copy made earlier |
| `Pdf.FlattenLength` | pdfsam-core/src/main/java/org/pdfsam/pdf/BasePdfLoadEvent.java:40-42 | batches appended one after another add as many documents as they hold in all, none lost and none duplicated |
| `Pdf.FlattenLayout` | pdfsam-core/src/main/java/org/pdfsam/pdf/BasePdfLoadEvent.java:40-42 | each batch sits whole and in its own order right after the batches appended before it |
| `Pdf.LoadSession` | pdfsam-core/src/main/java/org/pdfsam/pdf/BasePdfLoadEvent.java:36-46 | a caller that appends batches in turn leaves the old documents followed by every batch in order, the count growing by their total; a view of the event taken before the session shows exactly the documents after it |

## Left out

- Concurrency: `documents` is a `ConcurrentLinkedQueue` so that load threads can add at the same time. The model is sequential, and an interleaving of producers is modelled only as batches appended one after another (`LoadSession`).
- Null arguments to the load event and null elements: `add(null)`, `addAll(null)`, a `null` descriptor inside a batch, or a `null` index inside the selected collection. In Java these throw `NullPointerException` while adding to the queue or while unboxing. The model's arguments are values that cannot be null, so it does not capture those exceptions.
- `addAll` of the queue itself throws `IllegalArgumentException`. The event never exposes its queue, only an unmodifiable wrapper, so callers cannot reach that case. Adding the wrapper's contents back is modelled: `AddAll` takes the sequence's value, so the documents end up doubled.
- A `null` `MoveType` takes the `UP` branch of `canMove` in Java. `MoveType` is a datatype with exactly `Up` and `Down`.
- `toString` goes through a reflection library and has no behaviour to state.
- The methods of the view (iteration, `size`, the mutators that throw `UnsupportedOperationException`) are not modelled one by one. `DocumentsView` exposes the documents' current value.
- `Pdf.DocumentsView`: the view is read-only only by convention. It has no operation of its own that changes the documents, but its `source` field is the event itself, so its holder can call `Add` or `AddAll` through it. Java's wrapper hides the queue, and its mutators throw `UnsupportedOperationException`. Dafny cannot hide that field without export sets, which this model does not use.
- `Selection.SelectionChangedEvent.GetTotalRows`: its own contract states only that the count is non-negative. That it equals the last count given to `ofTotalRows`, or 0 before any, is stated by `OfTotalRows`, `Select` and `ClearSelectionEvent`.
- `MergeOptionsPane` only forwards the state of its widgets to a parameter builder, so it is not part of this model.
