# Sudoku entry: rules engine, grid reducer and game status

A Dafny model of the logic under a browser Sudoku entry application:

- **Rules engine** (`sudoku_rules.dfy`, module `SudokuRules`). An 81-cell board indexed row by row. It has the
  row, column and 3x3-block membership functions, `isValidCandidate` and `setContents`. `setContents` writes a digit
  and returns a pair: the cells of the written digit's groups that hold it more than once, and every cell
  connected to the written one. The engine is parameterised by an `Edition`. `AsWritten` uses the block formula of
  the code, which lacks a `* 27` factor (see Findings). `Corrected` uses the intended formula.
- **Grid-contents reducer** (`grid_contents.dfy`, module `GridContents`). The 81 cells the UI shows: an answer
  with a validity mark, nine candidate flags and a lock bit. It handles the actions `toggleContents`,
  `toggleCandidate` and `lockContents`. The rules object is taken as an oracle (`RulesOracle`): the list
  `setContents` returns, and the verdicts of `isValidContents` and `isValidCandidate`. This mirrors how the tests
  mock it. The reducer also returns the arguments of its calls to `setContents`.
- **Game status** (`game_state.dfy`, module `GameState`). Four statuses, the status reducer, the status a
  contents change requests, and `startGame`.
- `common.dfy` (module `Common`) holds `Option`, the `Index` (0..80) and `Digit` (1..9) types, and `Dedup`.
  `Dedup` is the first-occurrence de-duplication that `Array.from(new Set(xs))` performs.

Where the code and its callers disagree, the model follows the code:

- `setContents` returns a pair (`src/Sudoku/SudokuRules.ts:62`). The reducer (`src/State/GridContents.tsx:73-75`)
  and the rules test (`src/Sudoku/SudokuRules.test.ts:7`) treat the result as one flat list of indices.
  `InvalidAmongConnected` shows that every index of the first list is in the second. So the intended flat list is
  the connected list. As written, `affectedCells.forEach` (`GridContents.tsx:75`) walks the two arrays of the pair.
  Indexing the draft grid with an array gives `undefined`, so reading `.contents` (`GridContents.tsx:76`) would
  throw with the real engine. The model gives the reducer the flat list its tests mock.
- `isValidContents`, `isEmpty`, `isValid` and `isComplete` are called by the reducer and by the status callback.
  `SudokuRules.ts` does not define them. They appear here only as oracle answers (reducer) or as boolean inputs
  (status). There are no occupancy counters and no error on a repeated write, because the code has neither.
  `RepeatedWriteIsIdempotent` shows that writing the same digit twice simply succeeds.
- `setContents` is typed to take a digit (`SudokuRules.ts:42`), so the engine's write takes a `Digit`. The reducer
  passes `null` when it clears a cell; the oracle accepts `None` for that call.
- The status test at `src/State/GameState.test.tsx:72-98` expects a valid grid that turns invalid to go back to
  `InvalidGrid`. The code makes no request in that case, so the status stays `CanStart`
  (`InvalidAfterValidKeepsCanStart`).

## Model

| member | source | states |
|---|---|---|
| `SudokuRules.RowMembers` | src/Sudoku/SudokuRules.ts:1-4 | nine distinct indices starting at `floor(i/9)*9`; j is a member exactly when it is in i's row |
| `SudokuRules.ColumnMembers` | src/Sudoku/SudokuRules.ts:6-9 | the nine distinct indices `i%9 + 9k`; j is a member exactly when it is in i's column |
| `SudokuRules.BlockMembers` | src/Sudoku/SudokuRules.ts:11-18 | nine distinct in-range indices; for the corrected formula, or i < 27 as written, j is a member exactly when it shares i's 3x3 block |
| `SudokuRules.TopBandBlocksAgree` | src/Sudoku/SudokuRules.ts:12 | for i < 27 the formula as written gives the same block as the corrected one |
| `SudokuRules.AsWrittenBlockContainsCellIffTopBand` | src/Sudoku/SudokuRules.ts:11-18 | as written, every block index is at most 28, and i is in its own block exactly when i < 27 |
| `SudokuRules.AsWrittenBlockIsShiftedTopBlock` | src/Sudoku/SudokuRules.ts:11-18 | for every i, the block as written is the top-band block of i's column shifted right by `floor(i/27)` cells |
| `SudokuRules.BlockBugAtCentre` | src/Sudoku/SudokuRules.ts:12-17 | as written, cell 40 gets block 4,5,6,13,14,15,22,23,24, which omits 40; cell 5 is connected to 40 but not the reverse |
| `SudokuRules.BlockBugFlagsLegalPair` | src/Sudoku/SudokuRules.ts:11-63 | on the legal board with 5 in cells 14 and 24, writing 5 into cell 40 reports 14 and 24 as duplicates and not 40 as written; the corrected engine reports nothing |
| `SudokuRules.CorrectedConnectedSymmetric` | src/Sudoku/SudokuRules.ts:1-18 | with the corrected block, j is connected to i exactly when i is connected to j |
| `SudokuRules.NewRules` | src/Sudoku/SudokuRules.ts:25-27 | a new rules object has 81 cells, all empty |
| `SudokuRules.Matching` | src/Sudoku/SudokuRules.ts:30 | the filter keeps exactly the group members holding the value, and keeps a repetition-free group repetition-free |
| `SudokuRules.MatchingCountsOccupancy` | src/Sudoku/SudokuRules.ts:30-31 | for a repetition-free group, the filter's length is the number of cells holding the value |
| `SudokuRules.InvalidMembers` | src/Sudoku/SudokuRules.ts:29-32 | empty when at most one member holds d; otherwise exactly the members holding d |
| `SudokuRules.IsValidCandidate` | src/Sudoku/SudokuRules.ts:34-40 | true exactly when no row, column or block member of i holds c; false whenever i itself holds c |
| `SudokuRules.CandidateOnTrueGroups` | src/Sudoku/SudokuRules.ts:34-40 | on true groups, valid exactly when no cell sharing a row, column or 3x3 block with i holds c |
| `SudokuRules.SetContents` | src/Sudoku/SudokuRules.ts:42-63 | cell i holds d and the other 80 are unchanged; the first list is repetition-free and holds exactly the cells with d in a group of i where d occurs at least twice; the second list is repetition-free and holds exactly the connected cells |
| `SudokuRules.ConnectedMembers` | src/Sudoku/SudokuRules.ts:54-56 | the de-duplicated union of row, column and block |
| `Common.Dedup` | src/Sudoku/SudokuRules.ts:54-62 | no repetitions, the same elements as the input, never longer, and the first element kept first |
| `SudokuRules.ConnectedCount` | src/Sudoku/SudokuRules.ts:54-56 | with a true block (corrected, or i < 27 as written) the connected list has exactly 21 entries |
| `SudokuRules.ConnectedToFirstCell` | src/Sudoku/SudokuRules.test.ts:4-11 | the cells connected to cell 0 are exactly 0..8, 9, 10, 11, 18, 19, 20, 27, 36, 45, 54, 63, 72 |
| `SudokuRules.InvalidAmongConnected` | src/Sudoku/SudokuRules.ts:54-62 | every cell of the first list is in the second list |
| `SudokuRules.InvalidEmptyIffNoDuplicate` | src/Sudoku/SudokuRules.ts:45-60 | the first list is empty exactly when d occurs at most once in each of i's three groups after the write; with a true block (corrected, or i < 27 as written) a non-empty first list contains i |
| `SudokuRules.WriteBlocksCandidate` | src/Sudoku/SudokuRules.ts:34-43 | after writing d into i, d is not a valid candidate for any cell whose groups contain i |
| `SudokuRules.RepeatedWriteIsIdempotent` | src/Sudoku/SudokuRules.ts:42-43 | writing the digit a cell already holds returns the same board and the same lists |
| `SudokuRules.RewriteRestores` | src/Sudoku/SudokuRules.ts:43 | writing back a cell's earlier digit restores the original board |
| `SudokuRules.WritesCommute` | src/Sudoku/SudokuRules.ts:43 | writes to two different cells commute |
| `SudokuRules.CandidateConflictScenarios` | src/Sudoku/SudokuRules.test.ts:125-150 | a digit in the same row, column or block rules a candidate out |
| `SudokuRules.CandidateFreeScenario` | src/Sudoku/SudokuRules.test.ts:115-123 | with 4 in cell 1 and 5 in cell 49, candidates (0,5), (40,2) and (72,3) are valid |
| `GridContents.EmptyCell` | src/State/GridContents.tsx:33-49 | no answer, all nine candidates hidden, not locked |
| `GridContents.EmptyGrid` | src/State/GridContents.tsx:51-53 | 81 cells, each with no answer, no shown candidate, and no lock |
| `GridContents.Refresh` | src/State/GridContents.tsx:75-87 | an answer keeps its digit and takes the rules' verdict; shown candidates take the rules' verdicts; hidden ones stay hidden; the lock is untouched |
| `GridContents.RefreshIdempotent` | src/State/GridContents.tsx:75-87 | re-evaluating a cell twice equals re-evaluating it once |
| `GridContents.RefreshAll` | src/State/GridContents.tsx:75-87 | each listed cell is re-evaluated (repetitions do no harm); every other cell is unchanged |
| `GridContents.ApplyLockContents` | src/State/GridContents.tsx:58-65 | a cell is locked afterwards exactly when it was locked or shows an answer; answers and candidates are unchanged; no write is reported |
| `GridContents.LockIdempotent` | src/State/GridContents.tsx:58-65 | locking twice equals locking once |
| `GridContents.ApplyToggleContents` | src/State/GridContents.tsx:69-87 | one `setContents` call with the cell and the new digit, or null when the cell showed d; the cell is cleared or shows d; affected cells are re-evaluated; all other cells are unchanged |
| `GridContents.ApplyToggleCandidate` | src/State/GridContents.tsx:89-93 | a hidden candidate takes `isValidCandidate(cell, c)`, a shown one is hidden; the other candidates and cells are unchanged |
| `GridContents.UpdateGridContents` | src/State/GridContents.tsx:55-95 | exactly the toggle action writes once, for its own cell; a cell that is neither the target nor affected is unchanged by either toggle action; `lockContents` leaves cells without an answer unchanged |
| `GridContents.ToggleCandidateTwiceRestores` | src/State/GridContents.test.tsx:55-74 | showing a hidden candidate and hiding it again restores the grid |
| `GridContents.ToggleContentsTwiceClears` | src/State/GridContents.test.tsx:38-53 | toggling d twice into a cell that did not show d leaves it empty and reports writes of d, then of null |
| `GridContents.ToggleContentsReplaces` | src/State/GridContents.test.tsx:19-36 | toggling d into a cell showing another digit makes it show d |
| `GridContents.LockedCellStillToggles` | src/State/GridContents.tsx:67-71 | toggling a locked cell clears the answer when it showed the digit and writes the digit otherwise; the cell stays locked |
| `GridContents.ContentsVerdictScenario` | src/State/GridContents.test.tsx:76-105 | answers in cells 0..3 take the mocked verdicts after a toggle in cell 20 |
| `GridContents.CandidateVerdictScenario` | src/State/GridContents.test.tsx:107-134 | shown candidates of an affected cell take the mocked verdicts; hidden ones stay hidden |
| `GameState.InitialStatusIsInvalidGrid` | src/State/GameState.tsx:37 | the reducer starts in `InvalidGrid` |
| `GameState.NextStatus` | src/State/GameState.tsx:26-37 | a `CanStart` request while `Started` leaves `Started`; every other request is granted, `Started` from `CanStart` included |
| `GameState.NextStatusIdempotent` | src/State/GameState.tsx:26-37 | granting a request twice equals granting it once |
| `GameState.RequestedStatus` | src/State/GameState.tsx:41-47 | empty asks for `InvalidGrid`; else complete asks for `Complete`; else valid asks for `CanStart`; else no request |
| `GameState.OnContentsChange` | src/State/GameState.tsx:40-48 | an empty grid gives `InvalidGrid`; else complete gives `Complete`; else valid gives `CanStart`, unless started; otherwise the status is unchanged; it never produces `Started` from another status |
| `GameState.StartGame` | src/State/GameState.tsx:51-53 | `startGame` yields `Started` from every status |
| `GameState.StartedIsSticky` | src/State/GameState.tsx:32-34 | once started, any run of contents changes that never reports empty or complete keeps `Started` |
| `GameState.OnlyStartRequestsStart` | src/State/GameState.tsx:40-48 | a run of contents changes alone ends in `Started` only if it began there |
| `GameState.StartScenario` | src/State/GameState.test.tsx:122-156 | valid change then start gives `Started`; later valid and invalid changes keep it |
| `GameState.InvalidAfterValidKeepsCanStart` | src/State/GameState.test.tsx:72-98 | a valid change then an invalid one leaves `CanStart`, not the `InvalidGrid` the test expects |

## Left out

- React plumbing: the context providers, `useReducer`, `useMemo`, `useEffect` and immer's `produce`. The provider's
  effect that dispatches `lockContents` when the status becomes `Started` is left out too. The reducers are modelled
  as pure functions.
- Rendering, click dispatch and the selected-number state (`SudokuGrid.tsx`, `NumberPicker.tsx`, `ButtonBar.tsx`,
  `App.tsx`, `SelectedNumber.tsx`). They are UI with no algorithmic content.
- Bodies for `isValidContents`, `isEmpty`, `isValid` and `isComplete`, and incremental occupancy counters. None
  exists in `SudokuRules.ts`. They appear only as oracle answers or boolean inputs.
- Calling the engine's `setContents` with `null`. This is outside its declared signature, and with `null` its
  duplicate filter would count empty cells as duplicates.
- JavaScript behaviour outside the typed signatures is not modelled: out-of-range cell indices, or candidate and
  digit keys outside 1..9. Indices are `Index` (0..80) and digits are `Digit` (1..9).
- The order of the two lists `setContents` returns is modelled (first occurrence, as `Set` keeps it). No property
  about that order is stated.
- `GridContents.RulesOracle`: the two query oracles give one fixed answer per question for the whole update. This
  matches the code, which asks them only after its single write.

## Findings

| source | as written | input that shows it | evidently intended | confidence | as-written member | corrected member |
|---|---|---|---|---|---|---|
| src/Sudoku/SudokuRules.ts:12 | `topLeft = floor(i / 27) + i % 9 - i % 3`, with no `* 27` on the band | i = 40: the members are 4, 5, 6, 13, 14, 15, 22, 23, 24, which omit 40; every i >= 27 misses its own block. Visible consequence (`SudokuRules.BlockBugFlagsLegalPair`): on a legal board with 5 in cells 14 and 24, writing 5 into 40 flags 14 and 24 as duplicates and not 40 | `topLeft = floor(i / 27) * 27 + i % 9 - i % 3`, the block that contains i | high (not executed) | `SudokuRules.BlockBugAtCentre` | `SudokuRules.ConnectedCount` |
