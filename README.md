# Grid navigation of the block-placing AI, in Dafny

This project models the grid logic of a small Unity game. An agent walks
across a 9x9 board while an opponent AI (`GAN_AI`) places blocks in its way.

Three parts of the game are modelled:

- **`GAN_AI` navigation.** `GAN_AI` keeps its own 9x9 array of grid items.
  - A breadth-first flood fill writes each cell's step count from a source
    cell into the item's `visited` field, in place.
  - Moves are 8-connected. A diagonal step is taken only when both corner
    cells beside it are free.
  - `GetValidEndpoints` lists the free cells of the outer ring.
  - `TargetPath` floods from the start. It then walks the labels back from
    the end cell, choosing among candidate cells with `FindClosest`.
  - `AddState` appends one record to an experience log.
  - `GANSequence` computes one path per endpoint.
- **`MainAI` board bookkeeping.** A 9x9 boolean grid of blocks is cleared
  by `Awake` and marked by `AddBlock`. `GetCurrentPosition` counts the blocks
  into four quadrant buckets around the agent.
- **`Enums` direction tables.** These map the eight compass directions to
  grid offsets and rotations, with the inverse map from offset to direction.

Files:

- `wrappers.dfy`: `Option` and `Result`.
- `enums.dfy` (module `Enums`): the direction tables as functions, with
  round-trip and geometry lemmas.
- `grid.dfy` (module `Grid`): the 9x9 board as a value.
  - It defines the move rule of the flood fill.
  - `Reached` is reachability within k steps.
  - `Dist` is the breadth-first distance that the flood fill is meant to
    compute.
  - Lemmas relate `Dist` to shortest routes, one round of the fill, and
    symmetry.
- `gan_ai.dfy` (module `GanAi`): class `GanAi` over an `array2<GridItem>`.
  - The flood-fill methods are proved to leave every `visited` label equal to
    `Dist`.
  - The backtrack is proved to walk down the labels from the end cell to the
    start cell.
  - `FindClosest` is proved to pick the first closest candidate.
  - `GetValidEndpoints` is proved to list the free border cells, each once.
- `main_ai.dfy` (module `MainAi`): class `MainAi` over an `array2<bool>`.
  - The bucket counts are specified by recursive count functions, with lemmas
    about a free board, the doubled column and the effect of a new block.

The blocked flags of `GAN_AI`'s grid are never written by `GAN_AI.cs`. The
class therefore carries them as a ghost board (`board`) tied to the array by
`Valid()`. The `visited` labels are specified through `Label(c)` and the
predicate `Labelled(s)`: every label equals `Dist(board, s, c, 80)`, the
breadth-first distance within the 80 rounds that `SetDistance` runs.

## Model

| member | source | states |
|---|---|---|
| `Enums.Ordinal` | Assets/Resources/Scripts/Enums.cs:7 | The declaration order numbers the directions below 8. |
| `Enums.FromOrdinal` | Assets/Resources/Scripts/Enums.cs:7 | The cast `(Enums.Directions)i` of an index below 8 gives the direction whose ordinal is i. |
| `Enums.OrdinalRoundTrip` | Assets/Resources/Scripts/Enums.cs:7 | The cast and the ordinal are inverse bijections between 0..7 and the directions. |
| `Enums.OrdinalsOrthogonalThenDiagonal` | Assets/Resources/Scripts/Enums.cs:7 | Ordinals 0-3 are the straight directions and 4-7 the diagonals. |
| `Enums.DirectionToVector` | Assets/Resources/Scripts/Enums.cs:10-20 | Each offset has components in {-1, 0, 1}, y = 0, and not both x and z zero. It is diagonal exactly when both x and z are non-zero. |
| `Enums.VectorsDistinct` | Assets/Resources/Scripts/Enums.cs:10-20 | The eight offsets are pairwise distinct. |
| `Enums.DiagonalIsSum` | Assets/Resources/Scripts/Enums.cs:16-19 | Each diagonal offset is the sum of its north/south and east/west components. |
| `Enums.DirectionToRotation` | Assets/Resources/Scripts/Enums.cs:21-31 | Each rotation is a multiple of 45 in [0, 360). |
| `Enums.RotationsDistinct` | Assets/Resources/Scripts/Enums.cs:21-31 | The eight rotations are pairwise distinct. |
| `Enums.VectorToDirection` | Assets/Resources/Scripts/Enums.cs:32-42 | A vector is a key of the dictionary exactly when it is a neighbour offset. The direction found maps back to that vector. |
| `Enums.VectorRoundTrip` | Assets/Resources/Scripts/Enums.cs:10-42 | `vectorToDirection` inverts `directionToVector` in both directions. |
| `Enums.OppositeNegates` | Assets/Resources/Scripts/Enums.cs:10-20 | The opposite direction has the negated offset. |
| `Enums.NegatedOffsetsAreOpposite` | Assets/Resources/Scripts/Enums.cs:10-20 | Two offsets are negations of each other exactly when the directions are opposite. |
| `Enums.OppositeRotations` | Assets/Resources/Scripts/Enums.cs:12-30 | Opposite directions, whose offsets are negations, have rotations 180 degrees apart. |
| `Grid.DirectionTo` | Assets/Resources/Scripts/Enums.cs:32-42 | The direction looked up for an adjacent cell leads to that cell. |
| `Grid.Move` | Assets/Resources/Scripts/GAN_AI.cs:179-188 | Definition of the move test of TestEightDirections: c is on the board, adjacent to a and free, and so are (a.x, c.z) and (c.x, a.z). For a diagonal step those are the two corner cells. Its properties are stated by `Grid.EdgeSymmetric` and the TestEightDirections contract. |
| `Grid.NeighbourIsAdjacent` | Assets/Resources/Scripts/Enums.cs:10-20 | The cell one offset away is adjacent, and looking its direction up gives the direction back. |
| `Grid.EdgeSymmetric` | Assets/Resources/Scripts/GAN_AI.cs:179-188 | The move rule of TestEightDirections allows a step from a to c exactly when it allows the step from c to a. |
| `Grid.Dist` | Assets/Resources/Scripts/GAN_AI.cs:44-61 | The distance within k rounds lies in [-1, k]. It is 0 exactly at the source. |
| `Grid.DistReached` | Assets/Resources/Scripts/GAN_AI.cs:44-61 | Dist is -1 exactly for cells not reached within k steps. Otherwise it is the least number of steps that reaches the cell. |
| `Grid.DistIsShortest` | Assets/Resources/Scripts/GAN_AI.cs:44-61 | A cell is reached in Dist steps and in no fewer. |
| `Grid.DistStep` | Assets/Resources/Scripts/GAN_AI.cs:51-59 | One more round keeps every distance found so far. It gives k + 1 exactly to the unreached cells one step from a cell at distance k. |
| `Grid.DistParent` | Assets/Resources/Scripts/GAN_AI.cs:116-129 | Every cell at positive distance d has a neighbour at distance d - 1 that steps to it. This is what makes the backtrack's candidate list non-empty. |
| `Grid.BlockedUnreached` | Assets/Resources/Scripts/GAN_AI.cs:193-198 | A blocked cell other than the source is never reached, so its label stays -1. |
| `Grid.PositiveDistSymmetric` | Assets/Resources/Scripts/GAN_AI.cs:175-191 | A cell has a positive distance from s exactly when s has a positive distance from it. |
| `MainAi.WithBlockMarksOneCell` | Assets/Resources/Scripts/MainAI.cs:39-47 | Placing a block marks (x, y) and leaves every other cell as it was. |
| `MainAi.WithBlockIdempotent` | Assets/Resources/Scripts/MainAI.cs:41-46 | Placing a block twice gives the board of placing it once. On an already blocked cell it changes nothing. |
| `MainAi.QuadrantCounts` | Assets/Resources/Scripts/MainAI.cs:60-88 | Definition of the counting rule: the list [NE, 0, SE, SW], where each bucket counts the blocked cells passing its test of lines 64-79, and SE has two tests. Its properties are stated by `MainAi.FreeBoardQuadrantCounts`, `MainAi.QuadrantCountsDoubleColumn` and `MainAi.QuadrantCountsAfterBlock`. |
| `MainAi.MainAi.constructor` | Assets/Resources/Scripts/MainAI.cs:11 | `MainGrid` starts as a fresh 9x9 grid with every cell free. |
| `MainAi.MainAi.Awake` | Assets/Resources/Scripts/MainAI.cs:25-37 | After the reset loops every cell is free. |
| `MainAi.MainAi.AddBlock` | Assets/Resources/Scripts/MainAI.cs:39-47 | Cell (x, y) is blocked afterwards, every other cell is unchanged, and the grid equals `WithBlock` of the old grid. |
| `MainAi.MainAi.GetCurrentPosition` | Assets/Resources/Scripts/MainAI.cs:49-91 | As written, the loops run to `MainGrid.Length` (81). The method never returns a list: whatever the board and position, it fails with an out-of-range index at (0, 9). |
| `MainAi.MainAi.GetCurrentPositionWithinGrid` | Assets/Resources/Scripts/MainAI.cs:49-91 | With each loop bounded by its own dimension, the result is the four bucket counts NE, NW, SE, SW, in that order, as `QuadrantCounts` defines them. |
| `MainAi.FreeBoardQuadrantCounts` | Assets/Resources/Scripts/MainAI.cs:60 | An all-free grid, as Awake leaves it, gives [0, 0, 0, 0]. |
| `MainAi.QuadrantCountsDoubleColumn` | Assets/Resources/Scripts/MainAI.cs:64-79 | SE counts every blocked cell with y >= yPos, plus again those with x == xPos. NE + SW does the same for y <= yPos. |
| `MainAi.QuadrantCountsAfterBlock` | Assets/Resources/Scripts/MainAI.cs:60-79 | A block placed on a free cell adds one to a bucket for each of that bucket's tests the cell passes. NW stays 0. |
| `GanAi.GanAi.constructor` | Assets/Resources/Scripts/GAN_AI.cs:18-27 | The experience log starts empty. The grid is a fresh 9x9 array of default items (free, coordinates 0, label 0). |
| `GanAi.GanAi.InitialSetup` | Assets/Resources/Scripts/GAN_AI.cs:32-42 | Every label becomes -1 except the source's, which becomes 0. No other field changes. |
| `GanAi.GanAi.TestDirection` | Assets/Resources/Scripts/GAN_AI.cs:156-173 | Definition of the eight-case switch, each case with its own bounds test and cell. Its meaning is stated by `GanAi.GanAi.TestDirectionIsOpen`. |
| `GanAi.GanAi.TestDirectionIsOpen` | Assets/Resources/Scripts/GAN_AI.cs:156-173 | The switch of TestDirection holds exactly when the neighbour one `directionToVector` offset away is on the board, free and labelled `step`. |
| `GanAi.GanAi.SetVisited` | Assets/Resources/Scripts/GAN_AI.cs:193-199 | A free cell gets label `step`. A blocked cell and every other cell are left alone. |
| `GanAi.GanAi.TestEightDirections` | Assets/Resources/Scripts/GAN_AI.cs:175-191 | Labels `step` exactly on the unlabelled cells the move rule lets the fill enter from (x, z): in bounds, free, and with both corner cells free. Labelled cells keep their label. Only `visited` changes. |
| `GanAi.GanAi.ExpandRound` | Assets/Resources/Scripts/GAN_AI.cs:53-59 | One pass of the `foreach` over the grid turns the labels from the distances within step - 1 rounds into those within step rounds. |
| `GanAi.RoundAdvance` | Assets/Resources/Scripts/GAN_AI.cs:53-59 | Looking at the n-th cell labels exactly its unlabelled move targets, when it is free and was labelled k at the start of the pass. Cells labelled during the pass are never expanded in the same pass. |
| `GanAi.CellAt` | Assets/Resources/Scripts/GAN_AI.cs:53 | Definition of the n-th cell of the `foreach` over the 9x9 array, in row-major order: (n / 9, n % 9). |
| `GanAi.CellAtRowMajor` | Assets/Resources/Scripts/GAN_AI.cs:53 | The `foreach` visits each cell exactly once. For n below 81 the n-th cell is on the board, and it is c exactly when n is c's row-major index x * 9 + z. |
| `GanAi.RoundComplete` | Assets/Resources/Scripts/GAN_AI.cs:51-59 | After all 81 cells, a pass that started from the distances within k steps leaves those within k + 1. |
| `GanAi.GanAi.SetDistance` | Assets/Resources/Scripts/GAN_AI.cs:44-61 | Afterwards every label is the breadth-first distance from (x, z): -1 for cells not reached within 80 rounds, and otherwise a value in [0, 80]. Only `visited` changes. |
| `GanAi.ClosestIndexIsFirstClosest` | Assets/Resources/Scripts/GAN_AI.cs:139-154 | The scan picks the first item of least squared distance. When no item is closer than 1000, it picks index 0. |
| `GanAi.FirstClosestUnique` | Assets/Resources/Scripts/GAN_AI.cs:139-154 | The first closest index is unique. |
| `GanAi.ClosestIndex` | Assets/Resources/Scripts/GAN_AI.cs:141-153 | The index the scan settles on lies inside the list. A later item replaces the pick only when it is strictly closer than both the pick and 1000. That it is the first closest item is stated by `GanAi.ClosestIndexIsFirstClosest`. |
| `GanAi.ClosestIgnoresEndZ` | Assets/Resources/Scripts/GAN_AI.cs:128-147 | With the axis mismatch ((x, z, 0) against (endX, 0, endZ)), the pick among on-board cells does not depend on endZ. |
| `GanAi.GanAi.FindClosest` | Assets/Resources/Scripts/GAN_AI.cs:139-154 | On a non-empty list, returns the item at the first closest index. |
| `GanAi.GanAi.Candidates` | Assets/Resources/Scripts/GAN_AI.cs:118-126 | `tempList` after the first n directions has at most n items, one per passing direction, in direction order. |
| `GanAi.GanAi.CandidatesSound` | Assets/Resources/Scripts/GAN_AI.cs:118-126 | Every gathered candidate is an adjacent, free cell labelled `step`, stored at its own coordinates. |
| `GanAi.GanAi.CandidatesComplete` | Assets/Resources/Scripts/GAN_AI.cs:118-126 | For every direction that passes the test, the neighbour's grid item is in `tempList`. |
| `GanAi.GanAi.CandidatesNonEmpty` | Assets/Resources/Scripts/GAN_AI.cs:116-129 | On flood-fill labels, a cell labelled step + 1 always has a candidate labelled step. |
| `GanAi.GanAi.Choice` | Assets/Resources/Scripts/GAN_AI.cs:118-129 | There is a pick exactly when `tempList` is non-empty, and the pick is one of its items. |
| `GanAi.GanAi.ChoiceSound` | Assets/Resources/Scripts/GAN_AI.cs:118-129 | There is a pick exactly when there is a candidate. The pick is an adjacent free cell labelled `step`. |
| `GanAi.GanAi.NextStep` | Assets/Resources/Scripts/GAN_AI.cs:118-133 | One round of the backtrack loop gathers `tempList` and returns the first closest candidate, an adjacent free cell labelled `step`. |
| `GanAi.GanAi.BacktrackFrom` | Assets/Resources/Scripts/GAN_AI.cs:116-134 | The walk of the countdown loop from label `step` appends at most step + 1 items, one per label. That it never stops early on flood-fill labels is stated by `GanAi.GanAi.BacktrackFromCons`. |
| `GanAi.GanAi.BacktrackFromCons` | Assets/Resources/Scripts/GAN_AI.cs:116-134 | On flood-fill labels the walk never stops early. From a cell labelled step + 1 there is a pick, and the walk continues from it. |
| `GanAi.GanAi.BacktrackFromStepsDown` | Assets/Resources/Scripts/GAN_AI.cs:116-134 | From a cell labelled step + 1, the walk has step + 1 entries labelled step, step - 1, ..., 0. Each is adjacent to the one before, and the last is the start cell. |
| `GanAi.GanAi.Backtrack` | Assets/Resources/Scripts/GAN_AI.cs:116-134 | The countdown loop returns `ClosestWalk`: the end cell, followed by the walk that picks at each step the first candidate closest to (endX, 0, endZ). |
| `GanAi.GanAi.TargetPathIsBacktrack` | Assets/Resources/Scripts/GAN_AI.cs:106-134 | The returned list starts at the end cell and steps down the labels to the start cell. It has `visited[end] + 1` entries. |
| `GanAi.GanAi.BlockedUnreachedAt` | Assets/Resources/Scripts/GAN_AI.cs:106-114 | An end cell at positive distance is free, so the guard depends only on its distance. |
| `GanAi.GanAi.ClosestWalk` | Assets/Resources/Scripts/GAN_AI.cs:116-134 | Definition: the end cell, then `BacktrackFrom` from it with FindClosest's target (endX, 0, endZ). |
| `GanAi.GanAi.TargetPath` | Assets/Resources/Scripts/GAN_AI.cs:96-137 | Returns null exactly when the end cell's distance is <= 0: blocked, out of reach, or the start itself. Otherwise the result is the `ClosestWalk` from the end cell: every step takes FindClosest's first closest candidate to (endX, 0, endZ). The path walks down the labels to the start and has distance + 1 entries. Afterwards the labels are the distances from the start. |
| `GanAi.GanAi.GetValidEndpoints` | Assets/Resources/Scripts/GAN_AI.cs:63-94 | Returns the endpoints in the source's order: (x, 8) then (x, 0) for x = 0..8, then (0, y) then (8, y) for y = 1..7, each only when the cell is free. |
| `GanAi.ValidEndpointsAreOpenBorder` | Assets/Resources/Scripts/GAN_AI.cs:63-94 | A vector is listed exactly when it is (x, 1, z) for a free cell of the outer ring, corners included. |
| `GanAi.ValidEndpointsDistinct` | Assets/Resources/Scripts/GAN_AI.cs:63-94 | No endpoint is listed twice. |
| `GanAi.GanAi.AddState` | Assets/Resources/Scripts/GAN_AI.cs:202-212 | Appends exactly one record, whose outcome is the negated decision outcome. Earlier records are unchanged. |
| `GanAi.GanAi.GanSequence` | Assets/Resources/Scripts/GAN_AI.cs:214-232 | There is one TargetPath result per valid endpoint, in endpoint order. Each entry is null exactly when the endpoint is out of reach or is the agent's own cell. Otherwise it is a path that starts at that endpoint and has distance + 1 entries. When there is at least one endpoint, the labels left are the distances from the agent's cell. |

## Left out

- `GanAi.GanAi.SetDistance`, `TargetPath`, `GanSequence`: these require `CoordsMatch()`, i.e. each item's stored `x`/`z` equal its array indices. GAN_AI.cs never assigns `x`, `z` or `isBlocked` of its items (GAN_AI.cs:21-27), and nothing in the modelled files establishes it.
- `GanAi.GanAi.GanSequence`: the agent cell comes from `MainAI.Instance.transform.position` (a Unity transform, cast from float). It becomes the parameters x, z, with (x, z) required to be on the board. The method has no decision step yet, so none is modelled.
- `GanAi.GanAi.GanSequence`: per entry it states the null case, the first cell and the length. It does not restate that each path is the `ClosestWalk`, which `TargetPath` states for the call that produced it.
- `GanAi.GanAi.Backtrack`, `NextStep`, `ExpandRound`: these are the bodies of TargetPath's countdown loop, its per-step gathering, and SetDistance's `foreach` pass. Each is written as a method of its own.
- `GanAi.BacktrackFrom`: the source would throw where the walk finds no candidate or a pick with off-board coordinates. There the function stops. `BacktrackFromCons` proves that on flood-fill labels this never happens.
- `GanAi.SquaredDistance`: FindClosest compares the float `Vector3.Distance`. The model compares squared integer distances and 1000 squared, which orders the same way on integer coordinates. Float rounding is not modelled.
- `GanAi.AgentState`: `MainAI.State` is not defined in any modelled file. Only its `decisionOutcome` (a float, here a `real`) is kept.
- `MainAi.MainAi.AddBlock`: it requires (x, y) on the board. The source's out-of-range exception for other arguments is not modelled.
- `MainAi.MainAi.GetCurrentPosition`: xPos and yPos are floats that are only compared with cell indices. They are modelled as `real`.
- The static `Instance` singletons of MainAI and GAN_AI and the Unity `MonoBehaviour` lifecycle are not modelled.
- In MainAI.cs: the sensors, the float `QTable`, `alpha`/`gamma`, `IsLerping`, the private `Directions`/`Actions`/`States` enums, `GetDirectionBlocked`, `MoveAI`, `LerpFunction` and `MaxQValue` are Unity physics, animation or float Q-learning and are not part of this model.
- In Enums.cs: `BlockedDirections` and `Modes` are not read by the modelled code and are not part of this model.
- Assets/Scripts/MainAI.cs, GameManager.cs, the UI button scripts, PlaceManager.cs, Sensor.cs and BlockedSquare.cs are not part of this model. They are input handling, rendering and collider callbacks.

## Findings

| source | as written | input that shows it | evidently intended | confidence | as-written member | corrected member |
|---|---|---|---|---|---|---|
| Assets/Resources/Scripts/MainAI.cs:54-56 | Both loops of GetCurrentPosition run while the index is below `MainGrid.Length`, the number of cells (81). | Any board and any position: the inner loop reads `MainGrid[0, 9]` on the 9x9 grid, which raises an index-out-of-range exception before a list is returned. The method is private and nothing in the repository calls it, so the failure is latent. | Each loop bounded by its own dimension (`GetLength(0)`, `GetLength(1)`), as in Awake, so that the four bucket counts are returned. | not executed | `MainAi.MainAi.GetCurrentPosition` | `MainAi.MainAi.GetCurrentPositionWithinGrid` |
