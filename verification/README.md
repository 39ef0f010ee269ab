# Map jigsaw puzzle: a Dafny model

script.js turns a snapshot of a Leaflet map into a 4×4 jigsaw puzzle. The
`save-map` handler cuts the snapshot into sixteen 200×125 pieces, each
tagged with its `data-original-index` (its position, row-major). It puts them
into the tray (`puzzle-container`) in Fisher–Yates shuffled order and creates
sixteen empty grid cells (`grid-container`), each tagged with its
`data-index`. The `drop` handler accepts a piece on a cell only when the two
indices agree. It then appends that piece to the cell and runs
`checkPuzzleCompletion`, which congratulates the player once every cell's
first child carries the cell's index. When the position request fails, its
error callback turns a Geolocation API error code into a Polish message.

The model keeps the page state as a value:
`Board(tray: seq<Tile>, cells: seq<Cell>)`. A cell keeps the full list of its
children, so "one piece per cell, and only the right one" is a proved
invariant (`PuzzleBoard.Valid`) and not a fact of the types. The shuffle's
random draws are an input: `choices[i]` is the `j` drawn at step `i`.

Modules, one per file:

- `Wrappers`: `Option`.
- `Shuffling`: `shuffle`, a reference definition of it, and permutation and reachability proofs.
- `Tiles`: the sixteen pieces, their background offsets, and the builder loop.
- `Cells`: grid cells and counting the pieces they hold.
- `PuzzleBoard`: the board, its invariant, and the `save-map` rebuild.
- `DragDrop`: the `drop` rule.
- `Completion`: `checkPuzzleCompletion` and sequences of drops.
- `Geolocation`: the `errorMessages` lookup.

## Model

| member | source | states |
|---|---|---|
| Shuffling.Shuffle | script.js:175-181 | The in-place loop, run from the last index down to 1 with the given draws, returns a rearrangement of its input with the same multiset of elements. It agrees with the reference definition `Shuffled`. |
| Shuffling.ShuffledIdentityDraws | script.js:176-179 | When every step draws its own index, the input comes back unchanged. Arrays of length 0 or 1 make no draw at all, so the shuffle always returns them unchanged. |
| Shuffling.SwapExchanges | script.js:178 | The destructuring assignment exchanges the elements at `i` and `j` and leaves every other position alone. |
| Shuffling.ShuffledIsPermutation | script.js:175-181 | Whatever the draws, the shuffle neither loses nor duplicates an element. |
| Shuffling.ShuffledReadsOnlyItsSteps | script.js:176-177 | The result depends only on the draws made at steps below the length, so the unused draw 0 and any later draws are irrelevant. |
| Shuffling.ShuffledDrawsFor | script.js:175-181 | For any rearrangement `b` of `a`, the constructed draws are in range (each `j` in [0, i]) and make the shuffle of `a` produce exactly `b`. |
| Shuffling.EveryPermutationReachable | script.js:175-181 | Every rearrangement of the input is the outcome of some sequence of in-range draws, so no arrangement of the pieces is impossible. |
| Tiles.BuildPieces | script.js:86-99 | The nested y/x loop creates sixteen pieces. Piece `k` carries index `k = 4y + x` and the background offset (−200·x, −125·y) of its column and row. |
| Tiles.IndexOfOffset | script.js:95-96 | An offset that decodes to `k` is exactly the offset the builder gives piece `k`. An offset that does not decode is the offset of no piece. |
| Tiles.OffsetRoundTrip | script.js:95-96 | Decoding a piece's background offset gives back its index, so the offset determines the piece. |
| Tiles.OffsetsDistinct | script.js:95-96 | Two different pieces never show the same part of the snapshot. |
| PuzzleBoard.BuildCells | script.js:103-111 | The cell loop creates sixteen empty cells, with `data-index` 0..15 in page order. |
| PuzzleBoard.Rebuild | script.js:78-111 | A failed snapshot leaves the board as it was. Otherwise the old content is discarded. The tray then holds a shuffled arrangement of the sixteen pieces, carrying each index 0..15 exactly once. The sixteen cells are empty, and the new board satisfies the invariant. |
| PuzzleBoard.ArrangementCoversEachIndexOnce | script.js:96-101 | Any arrangement of the sixteen pieces carries each of the indices 0..15 exactly once, and no other index. |
| PuzzleBoard.FreshTrayCoversEachIndexOnce | script.js:90-101 | The freshly shuffled tray carries each index 0..15 exactly once. |
| PuzzleBoard.TrayPieceMeansEmptyCell | script.js:134-150 | On a valid board, the cell of a piece still in the tray is empty. |
| PuzzleBoard.EmptyCellMeansTrayPiece | script.js:134-150 | On a valid board, the piece of an empty cell is waiting in the tray. |
| DragDrop.FindPiece | script.js:141-143 | The lookup finds a piece exactly when some piece on the page carries the dragged index, and the piece it finds carries that index. |
| DragDrop.FindIn | script.js:141-143 | `find` returns the first position whose piece carries the index. Every earlier piece carries another index. When nothing is found, no piece carries it. |
| DragDrop.MovePiece | script.js:145 | `appendChild` takes the piece out of wherever it was and makes it the last child of the target cell. A tray piece leaves the tray, the rest staying in order. A piece from another cell leaves that cell, the rest staying in order, and the tray is untouched. The cell's earlier children stay, in order, before the appended piece; a piece already in the target cell is moved from its position to the end. Every other cell is unchanged, and every cell keeps its index. |
| DragDrop.Drop | script.js:134-150 | A drop whose dragged index differs from the cell's index changes nothing. So does a drop for which no piece is found. An accepted drop leaves the dragged piece as the cell's last child and keeps every cell's index. |
| DragDrop.DropKeepsEveryPiece | script.js:140-146 | Any drop, accepted or not, keeps the multiset of all pieces on the board unchanged: nothing is lost or duplicated. |
| DragDrop.FindOnValidBoard | script.js:141-143 | On a valid board the lookup always succeeds. It finds the piece in the tray when its cell is empty, and as the cell's only child otherwise. |
| DragDrop.AcceptedDropFromTray | script.js:140-146 | On a valid board, accepting a piece onto its empty cell removes exactly that piece from the tray, leaving the rest in order. The piece becomes the cell's only child, and no other cell changes. |
| DragDrop.AcceptedDropInPlace | script.js:140-146 | On a valid board, dropping a piece onto the cell that already holds it changes nothing. |
| DragDrop.AcceptedDrop | script.js:140-146 | On a valid board, after an accepted drop onto cell `k`, the cell holds the piece of `k` and nothing else, and every other cell is unchanged. |
| DragDrop.DropPreservesValid | script.js:134-150 | Every drop, accepted or rejected, keeps the board invariant. |
| Completion.IsComplete | script.js:155-160 | The `every` test over the grid cells fails whenever some cell is empty, because `piece?.getAttribute(...)` is then `undefined`. With no cells at all it passes, as `every` does on an empty list. |
| Completion.CompleteIffNoEmptyCell | script.js:155-160 | On a valid board the completion test passes exactly when no cell is empty. An empty cell has no first child and fails the test. |
| Completion.CompleteIffEveryPieceHome | script.js:155-160 | On a valid board the completion test passes exactly when each cell `k` holds the piece of `k` and nothing else. |
| Completion.CompleteIffTrayEmpty | script.js:155-160 | On a valid board the puzzle is solved exactly when the tray is empty. |
| Completion.HandleDrop | script.js:144-162 | The drop handler congratulates only after an accepted drop that leaves every cell's first child matching the cell. |
| Completion.CongratulatedIffAcceptedAndSolved | script.js:140-162 | On a valid board, a drop congratulates exactly when its index matches the cell and the board after it is solved. |
| Completion.ProgressStep | script.js:140-146 | Dropping a not-yet-placed piece onto its own cell fills exactly that cell and takes one piece off the tray. |
| Completion.ReplayState | script.js:101-150 | From a freshly built board, after any sequence of distinct correct drops, the board is valid. Exactly the dropped cells are filled, and the tray holds the remaining pieces. |
| Completion.CompletesExactlyAtLastDrop | script.js:155-160 | From a freshly built board, with the sixteen pieces dropped onto their own cells in any order, the puzzle is solved after the sixteenth drop and after none of the earlier ones. |
| Completion.AnyDropsKeepValid | script.js:134-160 | Any sequence of drops onto any cells, accepted or rejected, in any order and with repeats, keeps the board invariant. After every such sequence the completion test passes exactly when the tray is empty. |
| Completion.ReplayIsReplayDrops | script.js:134-150 | Replaying correct drops, each piece onto its own cell, is the general sequence of drops restricted to drops whose index and target agree. |
| Geolocation.ErrorMessage | script.js:60-65 | Codes 1, 2 and 3 give their fixed messages. Every other code gives "Nie udało się uzyskać lokalizacji.", and no known code does. The message is never empty. |
| Geolocation.MessagesTellCodesApart | script.js:60-65 | Two codes with the same message are equal, or are both unknown. |

## Left out

- Shuffling.Shuffle: the source shuffles the array in place and returns the same object. The model takes and returns an immutable sequence. Only the returned value is used (script.js:101), so nothing depends on the aliasing.
- Shuffling.Shuffle: `Math.random` is not modelled. The draws are a parameter, so uniformity of the shuffle is not stated. What is proved instead is that every draw sequence gives a permutation, and every permutation is reachable.
- The map, the position request, markers, `generateMapGrid`, and `leafletImage`/`toDataURL` are not modelled: they are I/O or rendering. The snapshot's outcome is the `snapshotOk` parameter of `PuzzleBoard.Rebuild`, and the image URL, `className` and `draggable` attributes, and `style.border` are dropped.
- The `alert`, `Notification`, `console` and `setTimeout` side effects are not modelled. `Completion.HandleDrop` returns whether the congratulation is shown, not the delayed call that shows it.
- The drag event plumbing (`dragstart`, `dragover`, `preventDefault`) is not modelled. The `dataTransfer` payload is the dragged index, passed to `DragDrop.Drop` as an integer.
- `data-original-index`, `data-index` and the `dataTransfer` text are strings in the page, compared with `===`. They are modelled as integers. The two attributes are always the decimal form of an integer. The `dataTransfer` text can be any string, since every drag may end over a cell. A payload that is not the decimal form of the cell's index fails the `===` test (script.js:140), just as an integer other than the index does, and the drop is rejected. So modelling the payload as an integer loses no accepted drop.
- DragDrop.FindPiece: the page order of `puzzle-container` relative to `grid-container` is set in the HTML, which is not part of this model. The lookup searches the tray first. On a valid board, each index is carried by exactly one piece, so the order does not matter.
- Tiles.BuildPieces: the `background-position` string is modelled as a pair of integers. The source writes `-0px` for the first row and column, which denotes the same offset as 0.
- Geolocation.ErrorMessage: the error code is modelled as an integer. JavaScript looks it up as a property name, which gives the same result for integer codes.
