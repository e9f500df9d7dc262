# Block Grid tile-placement engine in Dafny

Block Grid is a single-player puzzle played on an 8×8 grid. The player drops
polyomino pieces onto the board. Whenever a row, a column or a 3×3 tile ends up
completely filled, it is cleared. Each clear scores points, and a multiplier
grows while successive placements keep clearing something. The game is over
when no piece in the three-piece queue fits anywhere.

This project models the engine's three core source files, one Dafny module each:

- **`GameTypes`** (`game_types.dfy`, from `src/types/game.ts`) holds:
  - the record shapes (`Position`, `Cell`, `Board`, `GamePiece`, `GameState`,
    `ClearResult`, `DropResult`, `PiecePreview`, `GameEvent`);
  - the `GAME_CONFIG` constants;
  - the eleven-shape `PIECE_SHAPES` catalog, with lemmas about the combo table
    and about the shapes (ids, offsets and cell counts).
- **`GameUtils`** (`game_utils.dfy`, from `src/utils/gameUtils.ts`) holds the board
  algebra. Boards are values of type `seq<seq<Cell>>`, indexed `b[y][x]`, so each
  copy-on-write utility leaves its input untouched simply because it returns a new
  value. It has:
  - the pure utilities as functions: board constructors, the validity predicate,
    `canAnyPieceBePlaced`, `calculateScore`, `formatTime`, the board counts;
  - the utilities that loop as methods: placement, the `checkFull*` scans,
    `clear*`, `findAllValidPositions`, `getOptimalPiecePosition`. Each method is
    proved equal to a specification function, and lemmas state that function's
    properties;
  - the module-level piece counter, as the class `PieceGenerator`.
- **`GameStore`** (`game_store.dfy`, from `src/store/gameStore.ts`) holds the
  session object `GameStore` as a class:
  - its fields are the session state: board, queue, score, high score, combo,
    counters and flags;
  - its methods update those fields the way the store's actions do;
  - `Valid()` is the invariant every action keeps: an 8×8 board, a queue of at
    most three pieces with distinct ids, a non-negative high score at or above the
    score, and a multiplier that agrees with the combo count.

  Each action's effect is stated as a pure transition on `GameState`
  (`AfterCommit`, `AfterClear`, `Refill`, `CheckOver`, `AfterPlace`,
  `ResetState`). Lemmas then state what the game promises about those
  transitions: the score is monotone, nothing stays full after a placement, game
  over means no queued piece fits, and a reset keeps the high score.

Scores and multipliers are `real`. The multipliers are exact halves
(1, 1.5, …, 5), so no floating point is involved.

Randomness is a parameter. The model passes in a sequence of catalog indices
(`draws`) instead of calling `Math.random`. A piece's id combines its shape id
with the value of a monotone counter.

The event bus becomes a ghost log, `emitted`. It records each emitted event type
together with the listeners registered at that moment, in emission order.
Listeners are natural-number handles.

Points where the model follows the code's behaviour to the letter:

- **The multiplier lags by one placement.** `checkAndClearLines` computes the
  award with the multiplier left by the previous placement, and only then updates
  the combo. `ClearOutcome` and `AfterClear` do exactly that.
- **The award counts cells per structure.** `totalClearedCells` is
  `8·rows + 8·columns + 9·tiles`:
  - a clipped edge tile still counts 9 cells;
  - a cell shared by two structures is counted once for each.

  `CalculateScore` is applied to that total.
- **An invalid drop still writes the preview.** `placePiece` calls `previewPiece`
  first (`src/store/gameStore.ts:112`), and that action writes the preview fields.
  So a rejected drop leaves board, queue, score, combo and counters unchanged, but
  overwrites the preview fields with the rejected preview.
- **A placement never clears game over.** After a placement, `isGameOver` becomes
  `old(isGameOver) || no queued piece fits`, because `placePiece` only ever sets
  the flag to true (`src/store/gameStore.ts:153-156`). The flag is cleared only by
  `initGame` and `resetGame` (`ResetState`) and by `setGameOver(false)`.
- **The game-over check is an early-exit scan.** `checkGameOver` walks the queue and
  the anchors and stops at the first fit. The model's `CheckGameOver` does the same,
  and its result is proved to be the negation of `CanAnyPieceBePlaced`: it reports
  game over exactly when no queued piece can be placed.

## Model

| member | source | states |
|---|---|---|
| GameTypes.ComboTableShape | src/types/game.ts:223-224 | the combo table has 9 entries, is strictly ascending, starts at 1 and ends at 5, which equals the maximum multiplier |
| GameTypes.CatalogIdsDistinct | src/types/game.ts:123-214 | the catalog has 11 shapes and their ids are pairwise distinct |
| GameTypes.ShapeWellFormed | src/types/game.ts:123-214 | every offset of every catalog shape lies in [0,3]², and no shape repeats an offset |
| GameTypes.CatalogCellCounts | src/types/game.ts:126-212 | the cell count of each shape: single 1, h2/v2 2, h3/v3 3, h4/v4 4, 2×2 4, 3×3 9, L 4, T 5 |
| GameUtils.CreateEmptyBoard | src/utils/gameUtils.ts:24-31 | the result is n×n and every cell is unfilled with no colour |
| GameUtils.CreateFilledBoard | src/utils/gameUtils.ts:33-40 | the result is n×n and every cell is filled with the given colour |
| GameUtils.CloneBoard | src/utils/gameUtils.ts:42-46 | the copy equals the input cell for cell |
| GameUtils.ConstructedBoardStats | src/utils/gameUtils.ts:24-40 | an empty n×n board has 0 filled and n² empty cells; a filled one has n² filled and 0 empty |
| GameUtils.IsPieceValidAtPosition | src/utils/gameUtils.ts:48-65 | valid iff every anchor+offset lies in [0, board length)² and lands on an unfilled cell |
| GameUtils.PlacedCells | src/utils/gameUtils.ts:67-88 | after placement, every in-bounds target cell is filled with the piece's colour, every other cell is as in the input, and out-of-bounds offsets are skipped |
| GameUtils.PlacePieceOnBoard | src/utils/gameUtils.ts:67-88 | the loop's result is the placement function of the input board, which is left unchanged |
| GameUtils.FullRowsBelowSpec | src/utils/gameUtils.ts:115-126 | the listed rows are exactly the full rows below k, strictly ascending |
| GameUtils.CheckFullLines | src/utils/gameUtils.ts:115-126 | the scan returns the full rows in ascending order |
| GameUtils.FullColumnsBelowSpec | src/utils/gameUtils.ts:128-139 | the listed columns are exactly the full columns below k, strictly ascending |
| GameUtils.CheckFullColumns | src/utils/gameUtils.ts:128-139 | the scan returns the full columns in ascending order |
| GameUtils.BlockLimit | src/utils/gameUtils.ts:145-146 | the tile-loop bound is a multiple of 3 no smaller than the board size and less than 3 above it |
| GameUtils.FullBlocksInRowSpec | src/utils/gameUtils.ts:146-162 | within one band of tiles, the listed anchors are exactly the multiple-of-3 columns whose clipped tile is full, in ascending x order |
| GameUtils.FullBlocksBelowSound | src/utils/gameUtils.ts:141-166 | every listed anchor is a multiple-of-3 anchor on the board whose clipped 3×3 tile is fully filled |
| GameUtils.FullBlocksBelowComplete | src/utils/gameUtils.ts:141-166 | every multiple-of-3 anchor whose clipped tile is full is listed |
| GameUtils.FullBlocksBelowOrdered | src/utils/gameUtils.ts:141-166 | the anchors are listed in row-major order |
| GameUtils.ScanTile | src/utils/gameUtils.ts:147-157 | the early-exit scan of one tile reports exactly whether every in-bounds cell of the tile is filled |
| GameUtils.ScanTileRow | src/utils/gameUtils.ts:146-162 | the scan of one band of tiles returns the anchors of its full tiles |
| GameUtils.CheckFullBlocks | src/utils/gameUtils.ts:141-166 | the scan returns the full-tile anchors, which the lemmas above characterise |
| GameUtils.ClearWhereCells | src/utils/gameUtils.ts:168-205 | after clearing, every cell in a listed row, column or tile is empty and every other cell is as in the input |
| GameUtils.ClearLines | src/utils/gameUtils.ts:168-178 | clearing the listed rows gives the clearing function of the input with those rows |
| GameUtils.ClearColumns | src/utils/gameUtils.ts:180-190 | clearing the listed columns gives the clearing function of the input with those columns; a negative column clears nothing |
| GameUtils.ClearTile | src/utils/gameUtils.ts:194-203 | clearing one tile, clipped at every board edge, empties its on-board cells and leaves the rest |
| GameUtils.ClearBlocks | src/utils/gameUtils.ts:192-205 | clearing the listed tiles, each clipped at the board edges, gives the clearing function of the input with those tiles |
| GameUtils.ClearIdempotent | src/utils/gameUtils.ts:168-205 | clearing the same structures twice equals clearing them once |
| GameUtils.ClearCompose | src/utils/gameUtils.ts:168-205 | two successive clears equal one clear of the concatenated lists |
| GameUtils.ClearInSequence | src/store/gameStore.ts:361-383 | clearing rows, then columns, then tiles equals one clear of all three lists |
| GameUtils.ClearingLeavesNoFullStructure | src/store/gameStore.ts:320-383 | after clearing what was found, no row, column or tile is full |
| GameUtils.ValidInRowSpec | src/utils/gameUtils.ts:98-103 | the anchors found in one row are exactly the valid ones in it, in ascending x order |
| GameUtils.ValidBelowSound | src/utils/gameUtils.ts:90-107 | every anchor listed is on the board and valid |
| GameUtils.ValidBelowComplete | src/utils/gameUtils.ts:90-107 | every valid on-board anchor in the scanned rows is listed |
| GameUtils.ValidBelowOrdered | src/utils/gameUtils.ts:90-107 | the list is in strictly row-major order (y, then x), so it has no duplicates |
| GameUtils.ValidPositionsSpec | src/utils/gameUtils.ts:90-107 | p is listed iff p lies in [0,N)² and the piece is valid there; the list is strictly row-major |
| GameUtils.ScanAnchorRow | src/utils/gameUtils.ts:98-103 | the inner loop collects exactly the valid anchors of one row |
| GameUtils.FindAllValidPositions | src/utils/gameUtils.ts:90-107 | returns exactly the valid on-board anchors, in row-major order |
| GameUtils.CanAnyPieceBePlaced | src/utils/gameUtils.ts:109-113 | true iff some queued piece has a non-empty list of valid positions |
| GameUtils.AnchorsIffFits | src/utils/gameUtils.ts:90-113 | a piece's position list is non-empty iff it is valid at some on-board anchor |
| GameUtils.CanAnyPieceBePlacedSpec | src/utils/gameUtils.ts:109-113 | some piece can be placed iff some queued piece is valid at some anchor in [0,N)² |
| GameUtils.CalculateScore | src/utils/gameUtils.ts:207-220 | for non-negative counts, the award is non-negative under a non-negative multiplier and, under a positive one, positive iff some cell, row, column or tile was cleared |
| GameUtils.AwardPerStructure | src/utils/gameUtils.ts:207-220 | with 8·rows+8·cols+9·tiles cells, the award is (160·rows+160·cols+210·tiles)×multiplier, and it is positive iff something was cleared |
| GameUtils.AwardMonotone | src/utils/gameUtils.ts:207-220 | for the same cleared structures, a larger multiplier never gives a smaller award |
| GameUtils.HeuristicsAt | src/utils/gameUtils.ts:320-325 | the score list gives each candidate its 10·lines+10·cols+15·tiles score on the board after placing there |
| GameUtils.ScoreAnchor | src/utils/gameUtils.ts:320-325 | computes one candidate's heuristic score by placing the piece and running the three scans |
| GameUtils.BestOf | src/utils/gameUtils.ts:316-331 | the loop keeps the first candidate with the strictly greatest score |
| GameUtils.GetOptimalPiecePosition | src/utils/gameUtils.ts:305-334 | null iff there is no valid position; otherwise the first valid position, in row-major order, with the greatest score |
| GameUtils.FirstMaxInRowMajor | src/utils/gameUtils.ts:316-331 | every candidate earlier in row-major order than the chosen one has a strictly smaller score |
| GameUtils.FirstMaxAt | src/utils/gameUtils.ts:316-331 | no candidate scores more than the chosen one, and any earlier candidate scores strictly less |
| GameUtils.OptimalPositionIsBest | src/utils/gameUtils.ts:305-334 | the chosen position is on the board and the piece is valid there |
| GameUtils.NoValidAnchorBeatsOptimal | src/utils/gameUtils.ts:305-334 | no valid anchor on the board scores more than the chosen one, and every valid anchor before it scores strictly less (so an all-zero board picks the first) |
| GameUtils.ValidAnchorIndex | src/utils/gameUtils.ts:90-107 | every valid on-board anchor occurs in the position list |
| GameUtils.NatToStringDigits | src/utils/gameUtils.ts:274-286 | the decimal rendering of n is a non-empty digit string whose value is n |
| GameUtils.Pad2Spec | src/utils/gameUtils.ts:280-282 | for n < 100 the padded rendering has exactly two digits and denotes n |
| GameUtils.ParseIntRoundTrip | src/utils/gameUtils.ts:274-286 | reading back the rendering of any integer gives that integer |
| GameUtils.ParseClockHms | src/utils/gameUtils.ts:279-280 | a "h:MM:SS" string reads back as h·3600+MM·60+SS |
| GameUtils.ParseClockMs | src/utils/gameUtils.ts:281-282 | an "m:SS" string reads back as m·60+SS |
| GameUtils.ClockArithmetic | src/utils/gameUtils.ts:275-277 | the hours, minutes and seconds taken from s recombine to s |
| GameUtils.FormatTime | src/utils/gameUtils.ts:274-286 | the format is chosen by the whole seconds: the text ends in 's' iff under 60 s, has a colon before its last two digits iff at least 60 s, and a second colon three places earlier iff at least 3600 s |
| GameUtils.IntToStringMarks | src/utils/gameUtils.ts:279-284 | the decimal rendering of an integer is non-empty and holds no ':' and no 's', so the format marks are unambiguous |
| GameUtils.FormatTimeFields | src/utils/gameUtils.ts:274-286 | the leading field reads back as the whole seconds (under a minute), the whole minutes (under an hour) or the whole hours; MM is the minutes mod 60 and SS the seconds mod 60 |
| GameUtils.FormatTimeRoundTrip | src/utils/gameUtils.ts:274-286 | each of the three formats ("h:MM:SS" if h > 0, else "m:SS" if m > 0, else "Ns") reads back as ms div 1000 |
| GameUtils.FormatTimeInjective | src/utils/gameUtils.ts:274-286 | two times with the same rendering have the same whole number of seconds |
| GameUtils.RowCountsSum | src/utils/gameUtils.ts:227-229 | filled and empty cells of a row add up to its length |
| GameUtils.CountsSum | src/utils/gameUtils.ts:222-236 | filled and empty cells of a board add up to rows × width |
| GameUtils.GetBoardStats | src/utils/gameUtils.ts:222-236 | on a square board the empty count (total minus filled) equals an independent count of the unfilled cells, and the filled count is at most N² |
| GameUtils.UniformCount | src/utils/gameUtils.ts:227-229 | a board that is all filled or all empty counts all or none of its cells as filled |
| GameUtils.ValidAnchorOnBoard | src/utils/gameUtils.ts:48-65 | a catalog-shaped piece can only be valid at an anchor in [0,N)², so scanning that square finds every placement |
| GameUtils.CatalogFitsEmptyBoard | src/types/game.ts:123-214 | every catalog shape is valid at (0,0) on an empty 8×8 board |
| GameUtils.EmptyBoardFits | src/utils/gameUtils.ts:48-65 | on an empty board a piece is valid wherever all its targets are in bounds |
| GameUtils.MakePiece | src/utils/gameUtils.ts:13-22 | the piece is a copy of the k-th catalog shape (id, name, offsets, colour) at (0,0), active, with the given serial |
| GameUtils.PieceSetSpec | src/utils/gameUtils.ts:288-290 | the i-th generated piece is the catalog shape of the i-th draw, with the counter value first+i |
| GameUtils.PieceGenerator.GenerateRandomPiece | src/utils/gameUtils.ts:13-22 | builds the drawn catalog shape with the current counter as its serial, and bumps the counter by one |
| GameUtils.PieceGenerator.GetRandomPieceSet | src/utils/gameUtils.ts:288-290 | generates one piece per draw with consecutive serials and advances the counter by the number of draws |
| GameStore.IndexOfId | src/store/gameStore.ts:133-136 | the index of the first queue entry with the id, or -1 iff no entry has it |
| GameStore.IndexOf | src/store/gameStore.ts:291-298 | the index of the first occurrence of the listener, or -1 iff it is absent |
| GameStore.RemoveByIdShape | src/store/gameStore.ts:133-136 | an absent id leaves the queue unchanged; otherwise the first entry with the id is removed and the others keep their order |
| GameStore.RemoveByIdSpec | src/store/gameStore.ts:133-136 | the length drops by one iff the id is present; the remaining entries come from the queue; with distinct ids the id is gone afterwards |
| GameStore.MultiplierFor | src/store/gameStore.ts:220-230 | the multiplier lies in [1, 5] and is 1 for a combo of at most 1 |
| GameStore.MultiplierClosedForm | src/store/gameStore.ts:220-230 | the multiplier for combo c is 1 for c ≤ 1, 1+0.5·(c−1) up to 9, and 5 from 9 on |
| GameStore.MultiplierRange | src/store/gameStore.ts:220-230 | the multiplier lies between 1 and 5 and does not decrease as the combo grows |
| GameStore.AwardPositiveIffCleared | src/store/gameStore.ts:356-397 | the award is (160·rows+160·cols+210·tiles)× the multiplier in effect before this placement, and it is positive iff some cell was cleared |
| GameStore.ComboTransition | src/store/gameStore.ts:400-405 | if something was cleared the combo grows by one, otherwise it and the multiplier reset to 0 and 1; the multiplier follows the table, and the returned combo is the new count |
| GameStore.AwardMovesCombo | src/store/gameStore.ts:400-410 | awarding moves the combo to count+1 or 0 and sets the matching multiplier |
| GameStore.AwardEmissionsFrame | src/store/gameStore.ts:400-410 | the events an award emits depend only on combo, score and high score |
| GameStore.PieceSetIsFreshQueue | src/store/gameStore.ts:200-206 | a generated set of three pieces is a full queue with distinct ids |
| GameStore.AfterScoreKeepsInv | src/store/gameStore.ts:208-218 | adding points keeps the invariant and never lowers the high score |
| GameStore.AfterAwardKeepsInv | src/store/gameStore.ts:392-410 | the award step keeps the invariant |
| GameStore.AfterClearKeepsInv | src/store/gameStore.ts:313-433 | the whole clear-and-score step keeps the invariant |
| GameStore.AfterCommitKeepsInv | src/store/gameStore.ts:122-141 | writing the cells and removing the piece keeps the invariant |
| GameStore.AfterPlaceKeepsInv | src/store/gameStore.ts:110-165 | a whole placement keeps the invariant |
| GameStore.PlacementIsMonotone | src/store/gameStore.ts:208-218 | score, high score and the three counters never decrease, high score ≥ score, and the score grows by exactly the award when that is positive and not at all otherwise |
| GameStore.CommitWritesTargets | src/store/gameStore.ts:122-130 | every target cell of the dropped piece is on the board and takes its colour; every other cell is unchanged |
| GameStore.PlacementLeavesNoFullStructure | src/store/gameStore.ts:145 | after a placement no row, column or tile of the board is full |
| GameStore.CheckOverMeansStuck | src/store/gameStore.ts:239-263 | the game-over step sets the flag iff it was set or no queued piece is valid at any anchor |
| GameStore.PlacementKeepsCatalog | src/store/gameStore.ts:133-150 | after removal and refill every queued piece is still a catalog shape |
| GameStore.CatalogPieceWellFormed | src/types/game.ts:123-214 | a piece built from the catalog has a well-formed shape |
| GameStore.GameOverMeansStuck | src/store/gameStore.ts:153-156 | after a placement the game is over iff it already was or no queued piece is valid at any anchor |
| GameStore.ResetKeepsInvAndHighScore | src/store/gameStore.ts:88-105 | a reset keeps the invariant and the high score and leaves every cell unfilled |
| GameStore.GameStore.constructor | src/store/gameStore.ts:47-65 | the initial state: empty 8×8 board, empty queue, zero score and combo, multiplier 1, no preview, no listeners |
| GameStore.GameStore.EmitEvent | src/store/gameStore.ts:300-310 | appends the event type with the listeners registered now to the log |
| GameStore.GameStore.AddEventListener | src/store/gameStore.ts:285-289 | appends the listener to the list |
| GameStore.GameStore.RemoveEventListener | src/store/gameStore.ts:291-298 | removes the first occurrence of the listener; an absent listener leaves the list unchanged |
| GameStore.GameStore.InitGame | src/store/gameStore.ts:68-86 | resets to an empty board, a fresh queue of three generated pieces, zero score, combo and counters, multiplier 1 and no preview; emits pieces-generated |
| GameStore.GameStore.ResetGame | src/store/gameStore.ts:88-108 | the same reset, keeping the high score; emits pieces-generated |
| GameStore.GameStore.StartSession | src/store/gameStore.ts:69-84 | installs the reset state with the given queue |
| GameStore.GameStore.PreviewPiece | src/store/gameStore.ts:167-190 | reports valid iff every target lies in [0,8)² on an unfilled cell; changes only the preview fields |
| GameStore.GameStore.ClearPreview | src/store/gameStore.ts:192-198 | removes any preview |
| GameStore.GameStore.GenerateNewPieces | src/store/gameStore.ts:200-206 | replaces the queue by three pieces built from the draws; emits pieces-generated |
| GameStore.GameStore.UpdateScore | src/store/gameStore.ts:208-218 | adds the points and raises the high score to the new score when exceeded, emitting new-high-score exactly then |
| GameStore.GameStore.UpdateCombo | src/store/gameStore.ts:220-230 | sets the combo and its table multiplier; emits combo-achieved iff the combo is positive |
| GameStore.GameStore.ResetCombo | src/store/gameStore.ts:232-237 | sets combo 0 and multiplier 1 |
| GameStore.GameStore.SetGameOver | src/store/gameStore.ts:265-276 | sets the flag; emits game-over iff it is set to true |
| GameStore.GameStore.SetPaused | src/store/gameStore.ts:278-282 | sets the pause flag |
| GameStore.GameStore.PieceFitsSomewhere | src/store/gameStore.ts:242-259 | the early-exit anchor scan reports whether the piece has a valid position |
| GameStore.GameStore.CheckGameOver | src/store/gameStore.ts:239-263 | true iff no queued piece can be placed, without changing any state |
| GameStore.GameStore.CommitCells | src/store/gameStore.ts:122-130 | the cell writes produce the placement of the piece on the old board |
| GameStore.GameStore.ClearFullStructures | src/store/gameStore.ts:320-388 | all three scans run on the board before clearing; the found structures are cleared and each counter grows by the number found |
| GameStore.GameStore.ApplyAward | src/store/gameStore.ts:392-410 | applies the award step and logs its combo and score events |
| GameStore.GameStore.EmitClearEvents | src/store/gameStore.ts:422-430 | emits one line, one column and one tile event, each only if at least one such structure was found, in that order |
| GameStore.GameStore.CheckAndClearLines | src/store/gameStore.ts:313-433 | returns the clear outcome for the old board, combo count and lagging multiplier, moves to the clear transition and logs its events in source order |
| GameStore.GameStore.CommitPlacement | src/store/gameStore.ts:122-141 | writes the cells, removes the piece by id and clears the preview |
| GameStore.GameStore.RemoveFromQueue | src/store/gameStore.ts:133-136 | removes the first queue entry with the id |
| GameStore.GameStore.RefillQueue | src/store/gameStore.ts:148-150 | generates three fresh pieces iff the queue is empty, and otherwise changes nothing |
| GameStore.GameStore.UpdateGameOver | src/store/gameStore.ts:153-156 | sets game over iff no queued piece can be placed, emitting game-over then |
| GameStore.GameStore.FinishPlacement | src/store/gameStore.ts:148-158 | refills the queue, checks game over and emits piece-placed; the piece counter grows by 3 iff the queue was empty and is otherwise unchanged |
| GameStore.GameStore.CommitAndClear | src/store/gameStore.ts:122-145 | commits the piece and runs the clear step on the new board |
| GameStore.GameStore.CommitValidDrop | src/store/gameStore.ts:118-164 | a valid drop moves to the placement transition and returns the clear result of the placed board; the piece counter grows by 3 iff the queue is empty after the commit, and is unchanged otherwise |
| GameStore.GameStore.PlacePiece | src/store/gameStore.ts:110-165 | succeeds iff the piece is valid at the position. On failure it returns success=false and leaves board, queue, score, combo, counters and the log unchanged. On success it performs the full placement, returns the position and the clear result, and advances the piece counter by 3 iff the placement emptied the queue |

## Left out

- Randomness and timestamps: `Math.random` in `generateRandomPiece` is replaced by a supplied sequence of catalog indices (`draws`). The `Date.now` part of piece ids and event timestamps is not modelled. An id is its shape id with a counter value.
- Listener callbacks: their effects, and the event payloads, are not modelled. The log records each event type with the listeners registered when it was emitted.
- Zustand/immer: the `create`, `set` and `get` plumbing is modelled as direct field updates of the class.
- `formatScore` and `fillPercentage` in `getBoardStats`: both are floating-point output. Only the integer filled and empty counts are modelled.
- `generateDeviceHash`, `isTouchDevice` and `debugBoard`: these are browser and console I/O.
- The UI components, the leaderboard client and the build configuration are outside the engine.
- `previewPiece` is a deliberate departure. The source assigns its preview state to the field `previewPiece`, which overwrites the action of the same name that `placePiece` calls. The model keeps `PreviewPiece` as a method and the preview state in separate fields (`previewPosition`, `previewPieceState`, `previewValid`). It therefore does not model the failure that an overwritten action would cause.
- `GameStore.GameStore.CheckAndClearLines`: the store repeats the row, column and tile scans and the clearing loops inline. The model runs the utility methods instead. They visit the same cells in the same order and yield the same lists.
- `GameUtils.ClearLines`: on a non-empty board, requires every listed row to lie in [0, N). Any other index makes `newBoard[y]` undefined in the source, which then throws, so those inputs are excluded rather than modelled as an error. On a 0×0 board the inner loop never runs, so any list is a no-op, and the model allows it.
- `GameUtils.ClearColumns`: on a non-empty board, requires every listed column to be below N. A column at or beyond N makes the source's write extend each row array past the board, so those inputs are excluded. A negative column writes no cell, and the model handles it that way. On a 0×0 board any list is a no-op, and the model allows it.
- `GameUtils.ClearTile`: excludes exactly the tiles with `y < 0` and `x < N`. For those the inner loop reaches `newBoard[y][x]` with `newBoard[y]` undefined, and the source throws. A tile with `x ≥ N` writes nothing whatever its `y`, and the model allows it as a no-op. A negative `x` is modelled too: those writes touch no cell, so the tile is clipped at the left edge.
- `GameUtils.ClearBlocks`: excludes a list holding a tile with `y < 0` and `x < N`, for the same reason as `ClearTile`. Tiles with `x ≥ N` are modelled as no-ops, and negative `x` values as clipping.
- `GameUtils.FormatTime`: `ms` is an integer in the model, so a fractional millisecond count is not modelled. With a positive divisor, Dafny's division floors exactly as `Math.floor` does.
- `isPaused`: the engine stores the flag, but no operation in the core consults it, and the model does the same.
- `GameStore.GameStore.Valid`: the catalog property of the queue ("every queued piece is a catalog shape") is not part of `Valid`. It is stated separately in `PlacementKeepsCatalog`, and `GameOverMeansStuck` requires it as a precondition.
