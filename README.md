# Bubble shooter field and ball queue

This project models the two stateful components of a bubble-shooter game.

The **cell matrix watcher** owns a 14 x 18 field of cells. Each cell has:
- a colour type (R, G, B, Y, or E for empty);
- the ball sprite occupying it;
- its own coordinates;
- a visited mark.

The watcher can:
- build an empty field;
- build a random field, placing balls by rejection on E draws;
- replace the field with a level;
- overwrite one cell.

When a shot ball touches a ball on the field, the watcher:
- finds the cell holding the struck ball (the striker);
- writes a new cell on the touched side, refusing a Down attachment past the last column;
- collects the group of same-type cells 8-connected to the new cell, with a frontier-list flood fill that marks each cell visited.

The **shootable balls container** is the queue of balls waiting to be fired:
- balls are registered at the tail;
- the current ball is the head, and reading it reports the colour of the next ball and how many remain;
- a ball is deleted by identity, with an error logged when it is absent;
- the queue can be cleared.

The files are:
- `wrappers.dfy`: `Option`.
- `cells.dfy`: the field's vocabulary (cell types, positions, adjacency), the neighbour-scan bounds and counting lemmas.
- `random_field.dfy`: the random field as a function of the draws.
- `cells_matrix_watcher.dfy`: the watcher class over an `array2<Cell>`.
- `shootable_balls_container.dfy`: the queue class over a `seq<Ball>`.

The class invariant `Valid()` says two things: the array is 14 x 18, and every cell stores its own index as its coordinates. The flood fill is proved against an explicit bookkeeping predicate (`SearchState`). The result is repetition-free and has at most 252 cells. Every member other than the seed was a fresh cell of the target type. The result is closed under fresh neighbours, and each member is adjacent to an earlier one. The search terminates because the number of fresh cells, then the frontier length, decreases.

## Model

| member | source | states |
|---|---|---|
| Cells.ScanLower | Assets/Scripts/Units/Watchers/BallsMatrixWatcher/CellsMatrixWatcher.cs:170-172 | the scan starts one before the centre, or at 0 on the border |
| Cells.ScanUpper | Assets/Scripts/Units/Watchers/BallsMatrixWatcher/CellsMatrixWatcher.cs:170-172 | corrected clamp: the scan ends one after the centre, or at the last index on the border, never outside the axis |
| Cells.ScanCoversNeighbourhood | Assets/Scripts/Units/Watchers/BallsMatrixWatcher/CellsMatrixWatcher.cs:170-174 | an index lies between the corrected bounds iff it is inside the axis and within one step of the centre |
| Cells.ScanAsWrittenOverruns | Assets/Scripts/Units/Watchers/BallsMatrixWatcher/CellsMatrixWatcher.cs:170-172 | a Down attachment from column 16 passes the border test, yet the as-written clamp then scans column 18; row 13 likewise scans row 14 |
| Cells.ScanUpperAsWritten | Assets/Scripts/Units/Watchers/BallsMatrixWatcher/CellsMatrixWatcher.cs:170-172 | the clamp as written: one past the centre, or `count` itself, one past the last index, exactly when the centre is on the last index |
| Cells.ScanWindow | Assets/Scripts/Units/Watchers/BallsMatrixWatcher/CellsMatrixWatcher.cs:170-174 | a slot is visited by the scan around a centre iff it is inside the field and 8-adjacent to the centre |
| Cells.DistinctPositionsBound | Assets/Scripts/Units/Watchers/BallsMatrixWatcher/CellsMatrixWatcher.cs:16-17 | a repetition-free list of grid positions has at most 14 * 18 = 252 elements |
| RandomField.Placements | Assets/Scripts/Units/Watchers/BallsMatrixWatcher/CellsMatrixWatcher.cs:39-51 | the loop counter as a function of the draws: it counts only the non-E attempts, so it never exceeds the number of attempts |
| RandomField.CellAfter | Assets/Scripts/Units/Watchers/BallsMatrixWatcher/CellsMatrixWatcher.cs:39-51 | the field the placement loop builds from the draws: the latest placing draw on a slot wins, and every cell keeps its own coordinates, has no occupant and is unmarked |
| RandomField.CellAfterShape | Assets/Scripts/Units/Watchers/BallsMatrixWatcher/CellsMatrixWatcher.cs:44-50 | after the draws every cell keeps its own coordinates, has no occupant and is unvisited, and it is non-empty iff a placing draw hit it |
| RandomField.PlacedInRegion | Assets/Scripts/Units/Watchers/BallsMatrixWatcher/CellsMatrixWatcher.cs:41-42 | balls land only in rows 1..12 and columns 0..9 |
| RandomField.PlacedAtMostCounted | Assets/Scripts/Units/Watchers/BallsMatrixWatcher/CellsMatrixWatcher.cs:39-51 | the occupied slots number at most the counted placements |
| RandomField.OverwriteCountsTwice | Assets/Scripts/Units/Watchers/BallsMatrixWatcher/CellsMatrixWatcher.cs:46-50 | two placing draws on one slot count 2 but occupy 1 slot, the later colour winning |
| Watcher.DestinationStep | Assets/Scripts/Units/Watchers/BallsMatrixWatcher/CellsMatrixWatcher.cs:76-99 | attaching on the opposite side of the new slot leads back to the striker, and the opposite of the opposite side is the side itself |
| Watcher.Destination | Assets/Scripts/Units/Watchers/BallsMatrixWatcher/CellsMatrixWatcher.cs:79-97 | the attachment slot for each side is one straight step from the striker (8-adjacent and on its row or column) |
| Watcher.SideFitsInGrid | Assets/Scripts/Units/Watchers/BallsMatrixWatcher/CellsMatrixWatcher.cs:76-99 | with Up/Left/Right kept off the border and Down past the border test, the destination is inside the field |
| Watcher.ExpandStep | Assets/Scripts/Units/Watchers/BallsMatrixWatcher/CellsMatrixWatcher.cs:148-160 | expanding the frontier head with exactly its undiscovered fresh neighbours and moving it to the checked list keeps the search bookkeeping |
| Watcher.FoundChained | Assets/Scripts/Units/Watchers/BallsMatrixWatcher/CellsMatrixWatcher.cs:148-160 | a list whose members are each found from an earlier checked member is 8-connected in order |
| Watcher.ExpandDistinct | Assets/Scripts/Units/Watchers/BallsMatrixWatcher/CellsMatrixWatcher.cs:177-181 | appending only slots not yet discovered, each once, keeps the discovered list repetition-free |
| Watcher.ExpandChained | Assets/Scripts/Units/Watchers/BallsMatrixWatcher/CellsMatrixWatcher.cs:148-160 | slots appended as neighbours of the frontier head are each adjacent to an earlier checked member |
| Watcher.ExpandClosed | Assets/Scripts/Units/Watchers/BallsMatrixWatcher/CellsMatrixWatcher.cs:148-160 | once the head's undiscovered fresh neighbours are appended, every fresh neighbour of every checked member is discovered |
| Watcher.SearchComplete | Assets/Scripts/Units/Watchers/BallsMatrixWatcher/CellsMatrixWatcher.cs:145-161 | when the frontier is empty the checked list starts with the seed, has no repetition and at most 252 members, and is closed under fresh 8-neighbours and 8-connected in order |
| Watcher.CellsMatrixWatcher.constructor | Assets/Scripts/Units/Watchers/BallsMatrixWatcher/CellsMatrixWatcher.cs:9-31 | keeps the relation and settings; the field is 14 x 18 and empty |
| Watcher.CellsMatrixWatcher.CreateEmptyFieldOfCells | Assets/Scripts/Units/Watchers/BallsMatrixWatcher/CellsMatrixWatcher.cs:106-116 | every slot holds an E cell with no occupant, unvisited, storing its own index; nothing is occupied |
| Watcher.CellsMatrixWatcher.CreateRandomField | Assets/Scripts/Units/Watchers/BallsMatrixWatcher/CellsMatrixWatcher.cs:33-53 | consumes draws up to the one that makes the count reach the amount; the field equals the draws' field; at most `amount` slots are occupied, all in rows 1..12 and columns 0..9 |
| Watcher.CellsMatrixWatcher.PlaceBalls | Assets/Scripts/Units/Watchers/BallsMatrixWatcher/CellsMatrixWatcher.cs:39-51 | the placement loop stops at the first draw prefix with exactly `amount` placements (none for a non-positive amount), and the field is the one those draws produce |
| Watcher.CellsMatrixWatcher.PlaceDrawn | Assets/Scripts/Units/Watchers/BallsMatrixWatcher/CellsMatrixWatcher.cs:41-50 | one attempt places a fresh cell of the drawn colour at the drawn slot iff the colour is not E; the field becomes the one for one more draw |
| Watcher.CellsMatrixWatcher.OccupiedAfter | Assets/Scripts/Units/Watchers/BallsMatrixWatcher/CellsMatrixWatcher.cs:33-53 | a field built by the draws is occupied exactly where they placed, within the region and the count |
| Watcher.CellsMatrixWatcher.SetLevelField | Assets/Scripts/Units/Watchers/BallsMatrixWatcher/CellsMatrixWatcher.cs:55-58 | the watcher's field becomes the given array itself |
| Watcher.CellsMatrixWatcher.ChangeCellInfo | Assets/Scripts/Units/Watchers/BallsMatrixWatcher/CellsMatrixWatcher.cs:60-63 | slot (x, y) gets the mapped type, the given sprite, its own coordinates and no mark; every other slot is unchanged |
| Watcher.CellsMatrixWatcher.FindCellByBall | Assets/Scripts/Units/Watchers/BallsMatrixWatcher/CellsMatrixWatcher.cs:118-129 | None iff no slot holds the ball; otherwise the cell at the first holding slot in row-major order |
| Watcher.CellsMatrixWatcher.ProcessBallConnection | Assets/Scripts/Units/Watchers/BallsMatrixWatcher/CellsMatrixWatcher.cs:65-104 | StrikerMissing iff no slot holds the striker; OutOfBorder iff Down from the last column; both leave the field unchanged. Otherwise the destination gets a marked cell of the shot ball's type with the striker as occupant, and the group is the destination plus its connected fresh same-type cells. Only their marks change |
| Watcher.CellsMatrixWatcher.RepeatOutOfBorder | Assets/Scripts/Units/Watchers/BallsMatrixWatcher/CellsMatrixWatcher.cs:82-87 | a Down connection from the last column is refused twice in a row and the field stays as it was |
| Watcher.CellsMatrixWatcher.AttachAt | Assets/Scripts/Units/Watchers/BallsMatrixWatcher/CellsMatrixWatcher.cs:76-99 | the new cell is written, then the group is collected and described against the field before the write |
| Watcher.CellsMatrixWatcher.FindAllNeighbors | Assets/Scripts/Units/Watchers/BallsMatrixWatcher/CellsMatrixWatcher.cs:131-166 | the seed comes first; the list is repetition-free and at most 252 long; every later member was fresh of the target type; every fresh neighbour of a member is a member; each member is adjacent to an earlier one; exactly the members get marked |
| Watcher.CellsMatrixWatcher.StartSearch | Assets/Scripts/Units/Watchers/BallsMatrixWatcher/CellsMatrixWatcher.cs:133-141 | marking the seed and scanning around it establishes the search bookkeeping, with exactly the discovered cells marked |
| Watcher.CellsMatrixWatcher.CheckNeighbor | Assets/Scripts/Units/Watchers/BallsMatrixWatcher/CellsMatrixWatcher.cs:148-160 | one expansion keeps the bookkeeping, extends the discovered list and marks only the new cells; the fresh count or the frontier shrinks |
| Watcher.CellsMatrixWatcher.TakeNeighbours | Assets/Scripts/Units/Watchers/BallsMatrixWatcher/CellsMatrixWatcher.cs:150-153 | the scan around the head appends exactly the undiscovered fresh neighbours, once each, and the fresh cells drop by them |
| Watcher.CellsMatrixWatcher.FreshShrinks | Assets/Scripts/Units/Watchers/BallsMatrixWatcher/CellsMatrixWatcher.cs:148-160 | marking at least one fresh cell strictly lowers the number of fresh cells |
| Watcher.CellsMatrixWatcher.CheckForNearbyNeighbors | Assets/Scripts/Units/Watchers/BallsMatrixWatcher/CellsMatrixWatcher.cs:168-186 | keeps the list as a prefix and appends exactly the fresh 8-neighbours of the centre, in row-major order; only those get marked |
| Watcher.CellsMatrixWatcher.ScanRow | Assets/Scripts/Units/Watchers/BallsMatrixWatcher/CellsMatrixWatcher.cs:172-184 | one row of the scan appends exactly that row's fresh neighbours, in increasing column |
| Watcher.CellsMatrixWatcher.RowFreshMembers | Assets/Scripts/Units/Watchers/BallsMatrixWatcher/CellsMatrixWatcher.cs:172-184 | the fresh slots of a stretch of one row, other than the centre, are listed each once in increasing column, and no other slot is listed |
| Watcher.CellsMatrixWatcher.RowFreshScan | Assets/Scripts/Units/Watchers/BallsMatrixWatcher/CellsMatrixWatcher.cs:172-184 | on a row of the scan window those listed slots are exactly the row's fresh 8-neighbours of the centre |
| Watcher.CellsMatrixWatcher.TakeIfFresh | Assets/Scripts/Units/Watchers/BallsMatrixWatcher/CellsMatrixWatcher.cs:174-182 | a slot other than the centre is taken iff it has the target type and is unmarked; only it changes, and only its mark |
| ShootableBalls.RemoveFirst | Assets/Scripts/Services/ShootableBallsContainer/ShootableBallsContainer.cs:50 | removal shortens the list by one when the ball occurs, leaves it equal otherwise, and adds nothing |
| ShootableBalls.RemoveFirstAt | Assets/Scripts/Services/ShootableBallsContainer/ShootableBallsContainer.cs:43-51 | removal splices out exactly the first occurrence, keeping the rest in order |
| ShootableBalls.RemoveFirstMultiset | Assets/Scripts/Services/ShootableBallsContainer/ShootableBallsContainer.cs:50 | removal takes away one copy of the ball, when present, and nothing else |
| ShootableBalls.RemoveHead | Assets/Scripts/Services/ShootableBallsContainer/ShootableBallsContainer.cs:31-51 | deleting the current ball removes exactly the head |
| ShootableBalls.RegisterThenRemoveHead | Assets/Scripts/Services/ShootableBallsContainer/ShootableBallsContainer.cs:16-51 | first in, first out: a ball registered behind a non-empty queue stays behind the rest when the head is removed |
| ShootableBalls.ShootableBallsContainer.constructor | Assets/Scripts/Services/ShootableBallsContainer/ShootableBallsContainer.cs:9 | the queue starts empty |
| ShootableBalls.ShootableBallsContainer.Balls | Assets/Scripts/Services/ShootableBallsContainer/ShootableBallsContainer.cs:11-14 | returns the queue's current contents |
| ShootableBalls.ShootableBallsContainer.RegisterBall | Assets/Scripts/Services/ShootableBallsContainer/ShootableBallsContainer.cs:16-19 | appends the ball at the tail, keeping earlier balls |
| ShootableBalls.ShootableBallsContainer.CanTakeCurrentBall | Assets/Scripts/Services/ShootableBallsContainer/ShootableBallsContainer.cs:21-29 | true iff the queue is non-empty |
| ShootableBalls.ShootableBallsContainer.GetCurrentBall | Assets/Scripts/Services/ShootableBallsContainer/ShootableBallsContainer.cs:31-41 | returns the head; reports count - 1 remaining, with the second ball's colour when there is one and transparent otherwise |
| ShootableBalls.ShootableBallsContainer.DeleteBall | Assets/Scripts/Services/ShootableBallsContainer/ShootableBallsContainer.cs:43-51 | logs iff the ball is absent; the queue loses its first occurrence of the ball (unchanged when absent) |
| ShootableBalls.ShootableBallsContainer.DeleteAllBalls | Assets/Scripts/Services/ShootableBallsContainer/ShootableBallsContainer.cs:53-56 | the queue is empty |
| ShootableBalls.TakeNextBall | Assets/Scripts/Units/Spawners/BallSpawner.cs:41-60 | taking the next ball to fire yields the head and leaves the rest in order; an empty queue yields nothing and raises BallsAmountIsZero (`outOfBalls`), exactly when the queue is empty |

## Left out

- **Random draws.** The engine's random number generator is not modelled. `CreateRandomField` takes two inputs:
  - the drawn ball count;
  - the sequence of per-attempt draws (row, column and colour index, each in its source range).
- **Finite draws.** Because the draws are a finite sequence, `CreateRandomField` requires them to contain enough placing draws. With the engine's generator the source simply keeps drawing.
- **Random placement over an occupied slot.** An occupied slot is not retried: the code writes over it and counts the draw, so at most `amount` slots end up occupied, not exactly `amount`. `OverwriteCountsTwice` exhibits this, and `CreateRandomField` promises `|Occupied()| <= amount`.
- **Events and logging.** These are returned values; subscribers are not modelled:
  - `BallOutOfBorder` is `Connection.OutOfBorder`;
  - `NextBallColorChanged` is the `NextBall` report;
  - the missing-instance error log is the `logged` flag.
- **Initial field.** The source's field array starts with null slots, which crash any later read. The model's constructor starts from the empty field.
- Watcher.CellsMatrixWatcher.SetLevelField: requires a 14 x 18 array whose cells store their own index, which the source does not check. The model does not track the caller's other uses of the shared array.
- **Cells as values.** Cells are objects in the source. The model stores each cell as a value in its slot, and marking a cell visited rewrites its slot. The frontier and checked lists hold positions, not cell references. A cell object shared by two slots (possible only through a loaded level) is not modelled.
- Watcher.CellsMatrixWatcher.ChangeCellInfo: requires (x, y) inside the field; the source indexes the array without a bounds test and throws otherwise.
- Watcher.CellsMatrixWatcher.ProcessBallConnection: Up, Left and Right are not bounds-tested in the source. An attachment off the field there throws, so the model requires the striker's cell to leave room on those sides.
- **Occupant of the new cell.** The new cell records the striker's sprite as its occupant, not the shot ball's, as CellsMatrixWatcher.cs:79, 89, 93 and 97 do.
- **Scan clamp.** `CheckForNearbyNeighbors` uses the corrected clamp (see Findings). The as-written clamp, which throws on the last row or column, is exhibited by `Cells.ScanAsWrittenOverruns` and is not used by the watcher.
- Watcher.CellsMatrixWatcher.FindAllNeighbors: the contract fixes the collected set, the seed first and the connection order. It does not fix the exact breadth-first order of the list.
- **Match resolution.** The `checkedCells.Count >= 3` branch of `FindAllNeighbors` is empty in the source, so nothing follows the search.
- ShootableBalls.ShootableBallsContainer.GetCurrentBall: requires a non-empty queue. On an empty queue the source raises the event with count -1 and then throws.
- Watcher.CellsMatrixWatcher.CreateRandomField: the count is an input restricted by `AmountDrawable`. With the minimum above the maximum, the engine's range draw is not modelled, and the model accepts only the minimum itself.
- ShootableBalls.ShootableBallsContainer.Balls: returns a snapshot of the queue, while the source hands out a live read-only view of its list; later changes seen through that view are not modelled.
- ShootableBalls.TakeNextBall: leaves out the spawner's asynchronous instance creation and its `isActiveAndEnabled` early return.
- **Context files.** The Unity physics, spawning, cannon-input and win-state scripts (`StaticBallCollides.cs`, `BallInstanceCreater.cs`, `WinState.cs`) are engine glue and are not part of this model.
- **Collaborators not shown.**
  - The ball-type to cell-type relation is a function-valued constant.
  - The game settings are two integer constants.
  - Colours use `real` components instead of floats.
  - Ball types and ball sprites are opaque.

## Findings

| source | as written | input that shows it | evidently intended | confidence | as-written member | corrected member |
|---|---|---|---|---|---|---|
| Assets/Scripts/Units/Watchers/BallsMatrixWatcher/CellsMatrixWatcher.cs:170-172 | the neighbour scan runs up to `Min(c + 1, COUNT)` inclusive | Down attachment under a ball in column 16: the border test `16 + 1 >= 18` fails, the new cell is at column 17, and the scan reads column 18; likewise any seed on row 13 reads row 14 | clamp at the last index, `Min(c + 1, COUNT - 1)`, so the scan stays inside the field | not executed | Cells.ScanAsWrittenOverruns | Cells.ScanUpper |
