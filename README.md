# MiniGames rule engines in Dafny

This project models the game logic of the Unity project *MiniGames* and proves properties of it. The model covers four minigames:

- **Bingo**: a card of numbered squares, a lottery machine that draws numbers, and line completion.
- **Game of Life**: a board of living and dead cells, stepped under configurable birth, underpopulation and overpopulation thresholds.
- **Minesweeper**: mines, neighbour counts, a cascading reveal, coins and bonuses, lives and paid helpers.
- **Reversi**: sandwiches in eight directions, stone counts shown on every square, flipping, turns and passes, the end of the game, and the enemy's greedy move.

It also models the helpers the games share:

- the 2D grid `MonoBehaviourArray2D<T>`;
- the random helpers `RandomUtility`;
- the clamped integer game variable `GameVariableBase<int>`.

## How the model is laid out

One Dafny module stands for each source class.

- A cell is a datatype value: its state, its number or count, and its flags.
- The grid `Grid.Array2D<T>` is a class that holds the cells in an `array`. The game classes write cells back into that array, as the source writes a cell's fields in place.
- A cell's position is not stored. The cell at index `i` is at `Shape.ToPosition(i)`, and `Grid.ToPositionOfIndex` proves this is consistent with `Shape.Index`.
- Each game engine (`Bingo.Bingo`, `GameOfLife.GameOfLife`, `Minesweeper.Minesweeper`, `Reversi.Reversi`) is a class with the source's fields.
  - Its methods follow the source's methods one for one.
  - Setting the game `State` runs the `OnGameStateSet` branch directly: `EnterReady`, `EnterClear`, `GameOver`, `EndGame`.
- Loops stay loops, with invariants, and recursion stays recursion. The Minesweeper reveal cascade is a mutual recursion: `Cell.Open` → `OnSafeCellOpened` → `OpenSurroundingCells` → `Cell.Open`. It terminates because every step opens a closed square.
- Every method that computes a board is proved against a specification function on values:
  - `NextGeneration`, `StatusUpdated` and `RevealAll`;
  - `StoneCount`, `AfterPutting` and `TurnOverSandwichedStones`;
  - `HasBingo` and `Punched`.

  Lemmas then prove what the game promises about those functions.
- Game variables (coins, lives, stone tallies, step counters and so on) are `GameVariable.IntGameVariable` objects. Their setter clamps into the limits by re-entering itself, exactly as the source does.

## Model

| member | source | states |
|---|---|---|
| `Grid.Shape.Index` | Assets/Scripts/Common/MonoBehaviourArray2D.cs:66-76 | the flat index of an in-range position lies inside the array (corrected row-major formula, see Findings) |
| `Grid.Shape.ToPosition` | Assets/Scripts/Common/MonoBehaviourArray2D.cs:251-258 | every in-range index converts to an in-range position whose index is that same index |
| `Grid.ToPositionOfIndex` | Assets/Scripts/Common/MonoBehaviourArray2D.cs:251-258 | converting a position's index back gives the position again: index and position conversion are mutually inverse |
| `Grid.IndexInjective` | Assets/Scripts/Common/MonoBehaviourArray2D.cs:72 | two different in-range positions never share a slot of the array |
| `Grid.SquareSourceAgrees` | Assets/Scripts/Common/MonoBehaviourArray2D.cs:254-255 | on a square board the source's formulas `y*Rows+x` and `(i%Columns, i/Rows)` agree with the corrected ones |
| `Grid.SourceIndexAliases` | Assets/Scripts/Common/MonoBehaviourArray2D.cs:72 | as written, with more columns than rows, the two in-range positions (Rows, 0) and (0, 1) share one slot |
| `Grid.SourceIndexOverflows` | Assets/Scripts/Common/MonoBehaviourArray2D.cs:121 | as written, with more rows than columns, the last in-range position indexes past the end of the array |
| `Grid.GetValue` | Assets/Scripts/Common/MonoBehaviourArray2D.cs:66-76 | the lookup is absent exactly when the position is out of range (`IsOutOfRange`), and otherwise is the value stored for that position |
| `Grid.Array2D.Init` | Assets/Scripts/Common/MonoBehaviourArray2D.cs:28-44 | the first call allocates a fresh array; a later call keeps the same array and re-initialises every value in place |
| `Grid.Array2D.SetValue` | Assets/Scripts/Common/MonoBehaviourArray2D.cs:94-106 | succeeds exactly for an index inside the array; on success only that slot changes, on failure nothing does |
| `Grid.Array2D.SetValueAt` | Assets/Scripts/Common/MonoBehaviourArray2D.cs:115-127 | succeeds exactly for an in-range position; on success only that position's slot changes, and the stored value's position is the one given |
| `Grid.SurroundingComplete` | Assets/Scripts/Common/MonoBehaviourArray2D.cs:182-203 | a position is listed around a centre exactly when it is in range and one of the eight adjacent positions |
| `Grid.SurroundingShape` | Assets/Scripts/Common/MonoBehaviourArray2D.cs:182-203 | the surrounding list has no repeats and at most eight entries |
| `Grid.SurroundingStep` | Assets/Scripts/Common/MonoBehaviourArray2D.cs:186-200 | the nested loop visits the 3×3 block in row-major order, skipping the centre and out-of-range positions |
| `Grid.Array2D.GetSurroundingValues` | Assets/Scripts/Common/MonoBehaviourArray2D.cs:182-203 | the nested loop returns the values of exactly the listed neighbours, in row-major order |
| `Grid.Array2D.GetXValues` | Assets/Scripts/Common/MonoBehaviourArray2D.cs:220-229 | `Rows` entries: the column's values by increasing y for an in-range column, all absent otherwise |
| `Grid.Array2D.GetYValues` | Assets/Scripts/Common/MonoBehaviourArray2D.cs:236-244 | `Columns` entries: the row's values by increasing x for an in-range row, all absent otherwise |
| `RandomUtility.Wrap32` | Assets/Scripts/Common/Statics/RandomUtility.cs:43-44 | C# `int` arithmetic: the result is a 32-bit value congruent to the exact one, and equal to it when that fits |
| `RandomUtility.Shuffle` | Assets/Scripts/Common/Extensions/IEnumerableExtension.cs:18-21 | the shuffle returns some reordering: same length, same multiset of elements |
| `RandomUtility.GetRandomBoolArray` | Assets/Scripts/Common/Statics/RandomUtility.cs:17-27 | `arrayCount` entries of which exactly `trueCount` (none for a negative count) are true |
| `RandomUtility.ShuffleKeepsTrues` | Assets/Scripts/Common/Statics/RandomUtility.cs:25 | reordering never changes how many entries are true |
| `RandomUtility.CountTruePrefix` | Assets/Scripts/Common/Statics/RandomUtility.cs:19-23 | an array whose first `t` entries are true and whose others are false holds exactly `t` trues |
| `RandomUtility.Range` | Assets/Scripts/Common/Statics/RandomUtility.cs:50-54 | the ascending candidates `min..max`: `max-min+1` of them, holding exactly the numbers between the bounds |
| `RandomUtility.GetRandomIntArrayWithoutDuplication` | Assets/Scripts/Common/Statics/RandomUtility.cs:35-58 | null exactly when `min > max` or the 32-bit count `max-min+1` is not positive; otherwise a permutation of `min..max` |
| `RandomUtility.GetRandomIntArrayWithoutDuplicationOfLength` | Assets/Scripts/Common/Statics/RandomUtility.cs:68-78 | null in the same cases; otherwise `min(max(length,0), max-min+1)` numbers drawn from `min..max` without repeats |
| `RandomUtility.SubRangeDistinct` | Assets/Scripts/Common/Statics/RandomUtility.cs:35-78 | any draw from the candidates lies between the bounds and has no duplicates |
| `GameVariable.IntGameVariable.Clamp` | Assets/Scripts/Common/Variables/GameVariableBase.cs:75-85 | the settled value is within the limits, is the value itself when that is allowed, `maxValue` above the upper limit and `minValue` below the lower one |
| `GameVariable.IntGameVariable.NestedAssignment` | Assets/Scripts/Common/Variables/GameVariableBase.cs:77-84 | `AdjustValue` re-enters the setter exactly when the stored value breaks a limit |
| `GameVariable.IntGameVariable.SetRuntimeValue` | Assets/Scripts/Common/Variables/GameVariableBase.cs:56-65 | the `RuntimeValue` setter terminates with the clamped value and raises the event once per assignment, nested ones included |
| `GameVariable.IntGameVariable.AdjustValue` | Assets/Scripts/Common/Variables/GameVariableBase.cs:75-85 | the stored value ends up clamped; one extra event is raised when it had to be adjusted and a listener is attached |
| `GameVariable.IntGameVariable.RaiseEvent` | Assets/Scripts/Common/Variables/GameVariableBase.cs:90-98 | the event is raised exactly when a listener is attached; the value is untouched |
| `GameVariable.IntGameVariable.Init` | Assets/Scripts/Common/Variables/GameVariableBase.cs:67-70 | the value becomes the clamped initial value |
| `GameVariable.ClampIdempotent` | Assets/Scripts/Common/Variables/GameVariableBase.cs:77-84 | assigning a settled value again leaves it unchanged |
| `GameVariable.ClampMonotone` | Assets/Scripts/Common/Variables/GameVariableBase.cs:77-84 | a larger assignment never settles lower |
| `GameVariable.NestedAssignmentSettles` | Assets/Scripts/Common/Variables/GameVariableBase.cs:62-63 | with consistent limits, the nested assignment is already within the limits, so the setter recurses at most once |
| `GameVariable.InconsistentLimitsNeverSettle` | Assets/Scripts/Common/Variables/GameVariableBase.cs:77-84 | with both limits on and `minValue > maxValue`, every assignment re-enters, bouncing between the two limits for ever |
| `BingoCell.Init` | Assets/Scripts/Bingo/Cell/Cell.cs:90-96 | a square is reset to unmarked (Invalid) with number 0 |
| `BingoCell.OnClicked` | Assets/Scripts/Bingo/Cell/Cell.cs:101-113 | a click toggles Invalid and Valid, leaves a Free square alone and never changes the number |
| `BingoCell.OnClickedTwice` | Assets/Scripts/Bingo/Cell/Cell.cs:105-112 | two clicks restore the square |
| `BingoCellArray.ContainInvalid` | Assets/Scripts/Bingo/Cell/CellArray2D.cs:75-89 | true exactly when some square of the line is unmarked; Valid and Free both count as marked |
| `BingoCellArray.CellLine` | Assets/Scripts/Bingo/Cell/CellArray2D.cs:60-68 | the recursive walk stops at the first out-of-range position: empty exactly when the pivot is off the card, never longer than the columns left |
| `BingoCellArray.DiagonalWalk` | Assets/Scripts/Bingo/Cell/CellArray2D.cs:36-37 | the walk from (0,0) by (1,1) collects exactly the main diagonal |
| `BingoCellArray.AntiDiagonalWalk` | Assets/Scripts/Bingo/Cell/CellArray2D.cs:44-45 | the walk from (0, Rows-1) by (1,-1) collects exactly the anti-diagonal |
| `BingoCellArray.ColumnScan` | Assets/Scripts/Bingo/Cell/CellArray2D.cs:16-23 | a fetched column contains an unmarked square exactly when that column is not complete |
| `BingoCellArray.RowScan` | Assets/Scripts/Bingo/Cell/CellArray2D.cs:26-33 | a fetched row contains an unmarked square exactly when that row is not complete |
| `BingoCellArray.DiagonalScan` | Assets/Scripts/Bingo/Cell/CellArray2D.cs:35-49 | each diagonal walk contains an unmarked square exactly when that diagonal is not complete |
| `BingoCellArray.IsBingo` | Assets/Scripts/Bingo/Cell/CellArray2D.cs:13-52 | true exactly when some column, some row, the main diagonal or the anti-diagonal is fully marked; the card is only read |
| `BingoCellArray.BingoMonotone` | Assets/Scripts/Bingo/Cell/CellArray2D.cs:13-52 | marking more squares never loses a bingo |
| `BingoLottery.NextIndex` | Assets/Scripts/Bingo/LotteryMachine.cs:150-157 | the index moves to the next position and wraps to 0 after the last, so it stays in range |
| `BingoLottery.AdvanceCycles` | Assets/Scripts/Bingo/LotteryMachine.cs:122-158 | `k` updates while running move the index `k` places round the list |
| `BingoLottery.EveryIndexReached` | Assets/Scripts/Bingo/LotteryMachine.cs:122-158 | from any index, every number of the list comes up within one full cycle |
| `BingoLottery.LotteryMachine.Init` | Assets/Scripts/Bingo/LotteryMachine.cs:90-101 | the machine stops and holds the ascending list `min..max`; the selected index is kept |
| `BingoLottery.LotteryMachine.UpdateSelecetedIndex` | Assets/Scripts/Bingo/LotteryMachine.cs:143-158 | no change for a missing or empty list; otherwise the index advances cyclically and stays in range |
| `BingoLottery.LotteryMachine.OnStopButtonPressed` | Assets/Scripts/Bingo/LotteryMachine.cs:176-218 | ignored for an empty list, missing handlers or a refused restart. When stopped it only starts running. When running it stops, reports the selected number and decrements the number count. The list is never shrunk |
| `Bingo.WindowsDisjoint` | Assets/Scripts/Bingo/Bingo.cs:100-110 | column windows shift by `endNumber`, so with `startNumber ≥ 1` later windows lie wholly above earlier ones |
| `Bingo.CardNumbersDistinct` | Assets/Scripts/Bingo/Bingo.cs:95-111 | numbers within their column windows and distinct within each column are distinct over the whole card |
| `Bingo.FirstWithNumber` | Assets/Scripts/Bingo/Bingo.cs:75 | `FirstOrDefault`: the first square in array order holding the number, or none when no square holds it |
| `Bingo.PunchedChanges` | Assets/Scripts/Bingo/Bingo.cs:73-79 | punching changes at most the first square holding the number, and only from Invalid to Valid; numbers never change; a number held by no square changes nothing |
| `Bingo.PunchIdempotent` | Assets/Scripts/Bingo/Bingo.cs:73-79 | punching the same number twice is the same as once |
| `Bingo.PunchKeepsBingo` | Assets/Scripts/Bingo/Bingo.cs:73-88 | a punch never undoes a bingo |
| `Bingo.WriteColumn` | Assets/Scripts/Bingo/Bingo.cs:103-107 | the inner loop writes the drawn numbers down one column by increasing y; no state and no other column changes |
| `Bingo.Bingo.DealtStep` | Assets/Scripts/Bingo/Bingo.cs:100-110 | once one more column holds distinct numbers from its window, one more column of the card is dealt |
| `Bingo.Bingo.Punch` | Assets/Scripts/Bingo/Bingo.cs:73-89 | the card becomes the punched card, and the game is Clear when the card then has a bingo, otherwise in its old state |
| `Bingo.Bingo.AssignRandomNumber` | Assets/Scripts/Bingo/Bingo.cs:95-111 | every square gets a number from its column's window, distinct within the column; no state changes |
| `Bingo.Bingo.DealColumn` | Assets/Scripts/Bingo/Bingo.cs:102-109 | one pass of the outer loop deals one more column |
| `Bingo.Bingo.SetFreeCell` | Assets/Scripts/Bingo/Bingo.cs:117-121 | only the free position's square changes, and it becomes Free |
| `Bingo.Bingo.EnterReady` | Assets/Scripts/Bingo/Bingo.cs:127-146 | every square is unmarked except the Free one; numbers lie in the windows and are distinct per column; the lottery is stopped with the full list; the number count is reset |
| `Bingo.Bingo.EnterPlay` | Assets/Scripts/Bingo/Bingo.cs:148-155 | the lottery starts running; the card and the list are untouched |
| `Bingo.Bingo.Init` | Assets/Scripts/Bingo/Bingo.cs:55-67 | the lottery's handlers are registered and the game enters Ready: every square Invalid except the Free one, each column dealt distinct numbers from its window, the lottery stopped on the full list min..max with its count reset |
| `Bingo.Bingo.OnGameStartButtonPressed` | Assets/Scripts/Bingo/Bingo.cs:171-174 | the game enters Play and the lottery runs; the card, the lottery's numbers, its selected index and both handler registrations are kept |
| `Bingo.Bingo.OnRestartButtonPressed` | Assets/Scripts/Bingo/Bingo.cs:179-182 | the game enters Ready again: every square Invalid except the Free one, each column dealt distinct numbers from its window, the lottery stopped on the full list min..max with its count reset, and both handler registrations kept |
| `Bingo.Bingo.OnLotteryStopButtonPressed` | Assets/Scripts/Bingo/Bingo.cs:55-89 | the lottery's stop button with the game's handlers: a machine that does not respond (no numbers, handlers missing, or the game Clear, since `CanRestart` is `State != Clear`) changes nothing; a stopped machine starts running and the card is unchanged; a running machine stops, one number is drawn from its count, the card becomes the old card with the selected number punched, and the game is Clear exactly when that card has a bingo (otherwise its state is unchanged); a bingo once reached is never lost |
| `LifeCell.Init` | Assets/Scripts/GameOfLife/Cell/Cell.cs:51-58 | a cell is reset to dead with no pending state |
| `LifeCell.UpdateDeadOrAlive` | Assets/Scripts/GameOfLife/Cell/Cell.cs:63-90 | Birth and Survival make the cell alive, Underpopulation and Overpopulation make it dead, and None leaves it as it was |
| `LifeCell.UpdateDeadOrAliveIdempotent` | Assets/Scripts/GameOfLife/Cell/Cell.cs:63-90 | applying the pending state twice is the same as once |
| `LifeCell.BringToLife` | Assets/Scripts/GameOfLife/GameOfLife.cs:176-187 | the random seeding makes a cell alive and leaves its pending state |
| `LifeCell.SwitchDeadOrAlive` | Assets/Scripts/GameOfLife/Cell/Cell.cs:122-125 | life is toggled, the pending state kept |
| `LifeCell.OnClicked` | Assets/Scripts/GameOfLife/Cell/Cell.cs:107-117 | life toggles exactly when the click handler is registered and accepts the click |
| `LifeCell.OnClickedTwice` | Assets/Scripts/GameOfLife/Cell/Cell.cs:107-125 | two accepted clicks restore the cell |
| `LifeCellArray.GetSurroundingValues` | Assets/Scripts/GameOfLife/Cell/CellArray2D.cs:19-24 | the neighbours whose life equals the one asked for, as an order-preserving selection of the neighbour list; the board is only read |
| `LifeCellArray.NeighboursPartition` | Assets/Scripts/GameOfLife/Cell/CellArray2D.cs:19-24 | the living and the dead selections partition the neighbours, at most eight in all |
| `LifeCellArray.FilterExact` | Assets/Scripts/GameOfLife/Cell/CellArray2D.cs:21-22 | a neighbour is selected exactly when its life matches |
| `GameOfLife.NextStepCellState` | Assets/Scripts/GameOfLife/GameOfLife.cs:294-328 | a live cell gets Underpopulation at or below the underpopulation threshold, otherwise Overpopulation at or above the overpopulation threshold, otherwise Survival; a dead cell gets Birth exactly at the birth count, else None |
| `GameOfLife.DeathTestsDisjoint` | Assets/Scripts/GameOfLife/GameOfLife.cs:39-46 | within the configurable ranges of the thresholds the two death tests never both hold |
| `GameOfLife.LiveNeighboursDependOnLife` | Assets/Scripts/GameOfLife/GameOfLife.cs:278-286 | the live-neighbour count depends only on which cells are alive, not on their pending states |
| `GameOfLife.StatesComputed` | Assets/Scripts/GameOfLife/GameOfLife.cs:257-271 | computing states never changes any cell's life |
| `GameOfLife.StateComputedAt` | Assets/Scripts/GameOfLife/GameOfLife.cs:257-271 | each cell's new state is computed from the board as it was before the sweep: the alive snapshot |
| `GameOfLife.NextGenerationRule` | Assets/Scripts/GameOfLife/GameOfLife.cs:242-252 | after a step a cell lives exactly when it lived with a count strictly between the thresholds, or was dead with exactly the birth count |
| `GameOfLife.DefaultsAreConway` | Assets/Scripts/GameOfLife/GameOfLife.cs:33-46 | with the default thresholds 3, 1 and 4 a step is Conway's B3/S23 rule |
| `GameOfLife.LivingAreBornOrSurvived` | Assets/Scripts/GameOfLife/GameOfLife.cs:358-368 | when life matches Birth/Survival, the living count is the born count plus the survival count |
| `GameOfLife.DeadAndLivingAreAll` | Assets/Scripts/GameOfLife/GameOfLife.cs:347-356 | the dead count plus the living count is the number of cells |
| `GameOfLife.NextGenerationStates` | Assets/Scripts/GameOfLife/GameOfLife.cs:242-252 | after a step exactly the cells in Birth or Survival are alive |
| `GameOfLife.LivingAfterStep` | Assets/Scripts/GameOfLife/GameOfLife.cs:344-370 | after a step the number of living cells is the number born plus the number surviving |
| `GameOfLife.GameOfLife.Init` | Assets/Scripts/GameOfLife/GameOfLife.cs:102-111 | the click handler is registered and the game enters Ready: every pending state None, exactly `initialLivingCells` live cells (none when it is negative or exceeds the cell count), every counter back to its clamped initial value |
| `GameOfLife.GameOfLife.OnCellClicked` | Assets/Scripts/GameOfLife/GameOfLife.cs:116-122 | only the clicked cell can change, and its life toggles exactly when the handler is registered and the game is Ready |
| `GameOfLife.GameOfLife.EnterReady` | Assets/Scripts/GameOfLife/GameOfLife.cs:125-158 | every cell is reset, exactly the initial number of cells become alive (none if that exceeds the board), and every counter is reset |
| `GameOfLife.GameOfLife.InitGameVariables` | Assets/Scripts/GameOfLife/GameOfLife.cs:190-207 | every counter holds its clamped initial value |
| `GameOfLife.GameOfLife.SetLivingCellsAtRandomPositions` | Assets/Scripts/GameOfLife/GameOfLife.cs:165-188 | nothing changes when more cells are asked for than exist; otherwise exactly the asked number of cells, chosen by a random mask, are brought to life |
| `GameOfLife.GameOfLife.OnGameStartButtonPressed` | Assets/Scripts/GameOfLife/GameOfLife.cs:375-378 | the game enters Play |
| `GameOfLife.GameOfLife.OnRestartButtonPressed` | Assets/Scripts/GameOfLife/GameOfLife.cs:383-386 | the game enters Ready again: every pending state None, exactly `initialLivingCells` live cells (none when it is negative or exceeds the cell count), every counter back to its clamped initial value, the click registration kept |
| `GameOfLife.GameOfLife.Update` | Assets/Scripts/GameOfLife/GameOfLife.cs:209-229 | in Play, when the interval has elapsed, the board becomes the next generation, the step counter grows by one and every other counter is recounted from the new board; otherwise the board and every counter are untouched |
| `GameOfLife.GameOfLife.ToTheNextStep` | Assets/Scripts/GameOfLife/GameOfLife.cs:242-252 | the board becomes the next generation: states computed, then applied, then counters recounted, with the step counter one higher |
| `GameOfLife.GameOfLife.CountSurroundingAlives` | Assets/Scripts/GameOfLife/GameOfLife.cs:278-286 | the number of living neighbours, between 0 and 8 |
| `GameOfLife.GameOfLife.UpdateCellsState` | Assets/Scripts/GameOfLife/GameOfLife.cs:257-271 | the sweep writes every cell's next state from the unchanged alive snapshot |
| `GameOfLife.GameOfLife.UpdateCellState` | Assets/Scripts/GameOfLife/GameOfLife.cs:262-269 | one pass of the sweep writes that cell's next state and no other |
| `GameOfLife.GameOfLife.UpdateCellsDeadOrAlive` | Assets/Scripts/GameOfLife/GameOfLife.cs:333-339 | every cell applies its pending state |
| `GameOfLife.GameOfLife.UpdateGameVariables` | Assets/Scripts/GameOfLife/GameOfLife.cs:344-370 | the step counter grows by one, and the living, dead, born, survival, underpopulation and overpopulation counters equal full scans of the board |
| `MineCell.Init` | Assets/Scripts/Minesweeper/Cell/Cell.cs:117-125 | a square is reset to closed, unflagged, not definitely a mine, with no mines around |
| `MineCell.Bury` | Assets/Scripts/Minesweeper/Minesweeper.cs:409-431 | burying makes the square a mine and leaves its flags |
| `MineCell.Open` | Assets/Scripts/Minesweeper/Cell/Cell.cs:223-243 | opening leaves the square open and unflagged and never changes what it holds |
| `MineCell.OpenWithoutRaisingEvents` | Assets/Scripts/Minesweeper/Cell/Cell.cs:248-259 | the silent open leaves the square open and unflagged and never changes what it holds |
| `MineCell.OpenWithoutRaisingEventsIdempotent` | Assets/Scripts/Minesweeper/Cell/Cell.cs:248-259 | the silent open is idempotent and leaves the square as `Open` does |
| `MineCell.RaiseOrRemoveFlag` | Assets/Scripts/Minesweeper/Cell/Cell.cs:264-273 | the flag toggles, except that a flag on a square known to be a mine stays; nothing else changes |
| `MineCell.RaiseOrRemoveFlagTwice` | Assets/Scripts/Minesweeper/Cell/Cell.cs:264-273 | on a square not known to be a mine, two toggles restore it |
| `MineCell.MarkMine` | Assets/Scripts/Minesweeper/Minesweeper.cs:691-702 | a square is flagged irremovably as a mine; what it holds and whether it is open are kept |
| `MineCell.OnClicked` | Assets/Scripts/Minesweeper/Cell/Cell.cs:187-218 | with the handler registered and accepting, a left click opens an unflagged closed square, a right click toggles the flag of a closed square, and anything else is ignored |
| `Minesweeper.MineNeighboursDependOnMines` | Assets/Scripts/Minesweeper/Minesweeper.cs:462-476 | the neighbour mine count depends only on where the mines are |
| `Minesweeper.StatusUpdated` | Assets/Scripts/Minesweeper/Minesweeper.cs:436-454 | the status pass keeps every mine where it is and changes nothing but the safe squares' counts |
| `Minesweeper.StatusUpdatedConsistent` | Assets/Scripts/Minesweeper/Minesweeper.cs:436-476 | after the status pass every safe square shows its number of neighbouring mines |
| `Minesweeper.ZeroMeansNoMines` | Assets/Scripts/Minesweeper/Minesweeper.cs:656-660 | on a consistent board a square showing 0 has no mine around it, so the cascade only opens safe squares |
| `Minesweeper.EightMeansAllMines` | Assets/Scripts/Minesweeper/Minesweeper.cs:662-665 | on a consistent board a square showing 8 is surrounded by mines, so flagging them all as definite is sound |
| `Minesweeper.RevealAllReveals` | Assets/Scripts/Minesweeper/Minesweeper.cs:261-267 | opening everything silently leaves every square open and unflagged, with what it holds kept |
| `Minesweeper.Minesweeper.Init` | Assets/Scripts/Minesweeper/Minesweeper.cs:154-178 | the cell handlers are registered and the game enters Ready: every square closed, unflagged and not marked definite, exactly `mineCount` mines (none when it is out of range), every count consistent with its mine neighbours, every game variable back to its clamped initial value, the streak kept |
| `Minesweeper.Minesweeper.EnterReady` | Assets/Scripts/Minesweeper/Minesweeper.cs:188-208 | every square is closed and unflagged; exactly `mineCount` mines when fewer than the squares, none otherwise; counts consistent; every game variable reset, while the streak counter `bonusCount` is kept |
| `Minesweeper.Minesweeper.PrepareBoard` | Assets/Scripts/Minesweeper/Minesweeper.cs:192-200 | the board is reset, the mines buried and every count written |
| `Minesweeper.Minesweeper.ClearAndBury` | Assets/Scripts/Minesweeper/Minesweeper.cs:192-196 | the board is reset and exactly the right number of mines buried |
| `Minesweeper.Minesweeper.InitGameVariables` | Assets/Scripts/Minesweeper/Minesweeper.cs:386-404 | every counter holds its clamped initial value |
| `Minesweeper.Minesweeper.BuryMines` | Assets/Scripts/Minesweeper/Minesweeper.cs:409-431 | nothing changes when `mineCount` reaches the number of squares; otherwise a random mask of exactly `mineCount` squares is buried, so a mine-free board gets exactly that many mines |
| `Minesweeper.Minesweeper.UpdateCellsStatus` | Assets/Scripts/Minesweeper/Minesweeper.cs:436-454 | the board becomes the status-updated board |
| `Minesweeper.Minesweeper.UpdateCellStatus` | Assets/Scripts/Minesweeper/Minesweeper.cs:441-451 | one pass writes that square's count, computed from the mine layout before the pass, and no other |
| `Minesweeper.Minesweeper.CountSurroundingMines` | Assets/Scripts/Minesweeper/Minesweeper.cs:462-476 | the number of neighbouring mines, between 0 and 8 |
| `Minesweeper.Minesweeper.AllCellsHasOpenedExceptMine` | Assets/Scripts/Minesweeper/Minesweeper.cs:482-496 | true exactly when every safe square is open |
| `Minesweeper.Minesweeper.OnStartButtonPressed` | Assets/Scripts/Minesweeper/Minesweeper.cs:501-504 | the game enters Play |
| `Minesweeper.Minesweeper.OnRestartButtonPressed` | Assets/Scripts/Minesweeper/Minesweeper.cs:509-512 | the game enters Ready again: every square closed, unflagged and not marked definite, exactly `mineCount` mines (none when it is out of range), every count consistent with its mine neighbours, every game variable back to its clamped initial value, the registration and streak kept |
| `Minesweeper.Minesweeper.OnCellClicked` | Assets/Scripts/Minesweeper/Minesweeper.cs:168-178 | an ignored click leaves the board, the game's fields and its coins, lives and score variables alone; a flag toggle changes only that square's flag; an open leaves the square open |
| `Minesweeper.Minesweeper.OpenCell` | Assets/Scripts/Minesweeper/Cell/Cell.cs:223-243 | opening a safe square never costs a life; in Play the streak grows by the number of squares opened. Opening a mine costs one life, resets the streak and ends the game exactly when no life is left. Nothing buried changes, and no square ever closes |
| `Minesweeper.Minesweeper.OnSafeCellOpened` | Assets/Scripts/Minesweeper/Minesweeper.cs:632-667 | the reward (base plus streak bonus) is collected and the streak grows; no life is lost. The game ends Clear, fully revealed, exactly when every safe square ends up open. Otherwise a 0 square ends with every neighbour open or a mine, and an 8 square with every neighbour flagged as a definite mine |
| `Minesweeper.Minesweeper.DeduceAroundOpenedCell` | Assets/Scripts/Minesweeper/Minesweeper.cs:652-666 | a 0 square opens all its safe neighbours; an 8 square flags all its neighbours; any other count changes nothing |
| `Minesweeper.Minesweeper.CollectReward` | Assets/Scripts/Minesweeper/Minesweeper.cs:634-644 | coins grow by `coinEarnedWhenSafeCellOpened + continusOpenBounus * bonusCount`, then `bonusCount` grows by one |
| `Minesweeper.Minesweeper.OpenSurroundingCells` | Assets/Scripts/Minesweeper/Minesweeper.cs:673-685 | every neighbour ends open or a mine; squares only ever open; the streak grows by the number opened |
| `Minesweeper.Minesweeper.FlagSurroundingMines` | Assets/Scripts/Minesweeper/Minesweeper.cs:691-702 | exactly the neighbours are marked as definite mines; nothing else changes |
| `Minesweeper.Minesweeper.OnMineCellOpened` | Assets/Scripts/Minesweeper/Minesweeper.cs:707-726 | one life is lost and the streak reset; at no life left the game is over with everything revealed, otherwise nothing else changes |
| `Minesweeper.Minesweeper.GameOver` | Assets/Scripts/Minesweeper/Minesweeper.cs:229-235 | the game is over and every square is revealed |
| `Minesweeper.Minesweeper.OnTimeUp` | Assets/Scripts/Minesweeper/Minesweeper.cs:348-373 | time running out in Play ends the game with everything revealed; in any other state nothing happens |
| `Minesweeper.Minesweeper.EnterClear` | Assets/Scripts/Minesweeper/Minesweeper.cs:217-227 | the game is Clear, everything is revealed, and the score is the coin bonus plus the time bonus |
| `Minesweeper.Minesweeper.SetScore` | Assets/Scripts/Minesweeper/Minesweeper.cs:246-256 | coin bonus is coins times the multiplier, and the score is that plus the time bonus, each clamped |
| `Minesweeper.Minesweeper.OpenCellsWithoutRaisingEvents` | Assets/Scripts/Minesweeper/Minesweeper.cs:261-267 | every square is opened silently, leaving the board fully revealed |
| `Minesweeper.Minesweeper.GetMines` | Assets/Scripts/Minesweeper/Minesweeper.cs:591-615 | exactly the mines that pass the opened and flagged filters, in array order |
| `Minesweeper.Minesweeper.OnMineDetectorButtonPressed` | Assets/Scripts/Minesweeper/Minesweeper.cs:517-543 | without enough coins in Play, or with no closed unflagged mine left, nothing changes. Otherwise exactly one such mine is flagged as definite and the cost is paid |
| `Minesweeper.Minesweeper.OnIncreasingLifeButtonPressed` | Assets/Scripts/Minesweeper/Minesweeper.cs:548-561 | without enough coins in Play nothing changes; otherwise one life is gained and the cost paid |
| `ReversiCell.Flipped` | Assets/Scripts/Reversi/Cell/Cell.cs:153-171 | a stone shows the other colour; an empty square stays empty |
| `ReversiCell.Init` | Assets/Scripts/Reversi/Cell/Cell.cs:122-127 | the square is emptied and its stone count kept |
| `ReversiCell.TurnOver` | Assets/Scripts/Reversi/Cell/Cell.cs:153-171 | Black and White swap, Empty is unchanged, the count is kept |
| `ReversiCell.TurnOverTwice` | Assets/Scripts/Reversi/Cell/Cell.cs:153-171 | turning over twice restores the square |
| `ReversiCell.OnClicked` | Assets/Scripts/Reversi/Cell/Cell.cs:129-148 | a click is reported exactly when the handler is registered and accepts, and the square shows a positive count; the square never changes |
| `ReversiCellArray.GetSurroundingValues` | Assets/Scripts/Reversi/Cell/CellArray2D.cs:19-24 | the neighbours holding the state asked for, as an order-preserving selection of at most eight; the board is only read |
| `ReversiCellArray.FilterExact` | Assets/Scripts/Reversi/Cell/CellArray2D.cs:21-22 | a neighbour is selected exactly when its state matches |
| `ReversiRules.StonesAround` | Assets/Scripts/Reversi/Reversi.cs:371-376 | the opponent stones around a square: in range, adjacent, in one of the eight directions, at most eight |
| `ReversiRules.StonesAroundDistinct` | Assets/Scripts/Reversi/Reversi.cs:371-376 | no stone is listed twice, so no direction is walked twice |
| `ReversiRules.StonesAroundAreFilteredNeighbours` | Assets/Scripts/Reversi/Reversi.cs:371-376 | the positions are exactly those of the cells the filtered neighbour query returns |
| `ReversiRules.CountStonesCanBeTurnedOver` | Assets/Scripts/Reversi/Reversi.cs:282-299 | the recursive walk terminates, and every call adds at least the stone it starts on |
| `ReversiRules.CountAccumulates` | Assets/Scripts/Reversi/Reversi.cs:282-299 | the accumulating count is the starting count plus the length of the opponent run |
| `ReversiRules.RunShape` | Assets/Scripts/Reversi/Reversi.cs:282-299 | the run is all opponent stones and is ended by a square that is off the board or not an opponent stone |
| `ReversiRules.SandwichIsRunEndingAtTurn` | Assets/Scripts/Reversi/Reversi.cs:384-407 | the sandwich test holds exactly when the opponent run from the stone ends at a stone of the turn player (not at an empty square or the edge) |
| `ReversiRules.WalkReadsOnlyRay` | Assets/Scripts/Reversi/Reversi.cs:282-299 | both walks read only the squares of their ray |
| `ReversiRules.TurnOverStonesFrame` | Assets/Scripts/Reversi/Reversi.cs:474-492 | the flip walk touches no square off its ray |
| `ReversiRules.TurnOverStonesChanges` | Assets/Scripts/Reversi/Reversi.cs:474-492 | the flip walk only turns opponent stones into the turn player's colour |
| `ReversiRules.TurnOverStonesFlipsRun` | Assets/Scripts/Reversi/Reversi.cs:474-492 | every stone of the opponent run is turned over |
| `ReversiRules.TurnOverStonesCounts` | Assets/Scripts/Reversi/Reversi.cs:474-492 | the turn player gains exactly the run length and the opponent loses exactly as many |
| `ReversiRules.SandwichStep` | Assets/Scripts/Reversi/Reversi.cs:454-466 | one pass of the loop flips the stone's run when it is sandwiched on the board as it stands, and otherwise changes nothing |
| `ReversiRules.GainsStep` | Assets/Scripts/Reversi/Reversi.cs:258-269 | one pass of the count loop adds the run length exactly for a sandwiched stone |
| `ReversiRules.AnySandwichStep` | Assets/Scripts/Reversi/Reversi.cs:318-330 | one pass of the test loop finds a sandwich exactly when the earlier passes did or this stone is sandwiched |
| `ReversiRules.SandwichEffect` | Assets/Scripts/Reversi/Reversi.cs:451-467 | turning every sandwich around a square only turns opponent stones, and moves exactly the sandwiched runs' total from the opponent to the turn player |
| `ReversiRules.GainsIgnoreCentre` | Assets/Scripts/Reversi/Reversi.cs:421-433 | what the runs gain does not depend on the placed square itself |
| `ReversiRules.StoneCount` | Assets/Scripts/Reversi/Reversi.cs:245-275 | never negative, and positive exactly where a stone can be put |
| `ReversiRules.StonesAroundIgnoreCentre` | Assets/Scripts/Reversi/Reversi.cs:421-433 | putting the stone does not change which opponent stones surround it |
| `ReversiRules.PuttingTurnsOnlyOpponents` | Assets/Scripts/Reversi/Reversi.cs:421-467 | a placement changes only the placed square and opponent stones, each into the turn player's colour |
| `ReversiRules.PuttingGainsSandwiches` | Assets/Scripts/Reversi/Reversi.cs:421-467 | on an empty square the turn player gains one plus every sandwiched run, and the opponent loses the runs |
| `ReversiRules.PuttingGainsStoneCount` | Assets/Scripts/Reversi/Reversi.cs:245-275 | a legal placement gains exactly the square's shown count, and the opponent loses one fewer than that |
| `ReversiRules.PutOnEmpty` | Assets/Scripts/Reversi/Reversi.cs:426-427 | putting a stone on an empty square adds one to the turn player's tally and none to the opponent's |
| `ReversiRules.OpponentsAfterPutting` | Assets/Scripts/Reversi/Reversi.cs:451-456 | after the stone is put, the same opponent stones surround it, distinct and adjacent |
| `ReversiRules.PuttableCountIsAnyMove` | Assets/Scripts/Reversi/Reversi.cs:543-553 | with the counts shown, a positive number of placeable squares means exactly that the turn player has a legal move |
| `ReversiRules.ShownSquareIsMove` | Assets/Scripts/Reversi/Reversi.cs:639-651 | a square showing a positive count is a legal move |
| `ReversiRules.MoveIsShown` | Assets/Scripts/Reversi/Reversi.cs:639-651 | every legal move shows up as a placeable square |
| `ReversiRules.StoneTallies` | Assets/Scripts/Reversi/Reversi.cs:497-507 | black, white and empty squares add up to the board, so the two tallies sum to the non-empty squares |
| `Reversi.GreedyChoiceUnique` | Assets/Scripts/Reversi/Reversi.cs:586-609 | at most one square is the first one with the maximum count |
| `Reversi.GreedyChoiceIsBestMove` | Assets/Scripts/Reversi/Reversi.cs:586-609 | the greedy choice is a legal move, and no legal move gains more |
| `Reversi.ClickGainsShownCount` | Assets/Scripts/Reversi/Reversi.cs:421-446 | clicking a square that shows count n gives the turn player n more stones and the opponent n-1 fewer |
| `Reversi.Reversi.BeganAfterPut` | Assets/Scripts/Reversi/Reversi.cs:556-578 | after a side has put a stone, the game goes on exactly when one of the two sides can move, and then with a side that can |
| `Reversi.Reversi.ClickedPosition` | Assets/Scripts/Reversi/Reversi.cs:113 | the last clicked square is on the board |
| `Reversi.Reversi.PlayerHasWon` | Assets/Scripts/Reversi/Reversi.cs:615-633 | the player has won exactly with strictly more stones than the enemy; a tie is lost |
| `Reversi.Reversi.Init` | Assets/Scripts/Reversi/Reversi.cs:115-124 | the handlers are registered and the game enters Ready on the starting position with both tallies recounted; the turn, the busy flag, both pass flags, the last clicked square and the pending clicks are kept |
| `Reversi.Reversi.EnterReady` | Assets/Scripts/Reversi/Reversi.cs:145-168 | the board is the starting position on an emptied board, the tallies count it, and every square shows its count. The turn, the flags and the pending clicks are kept |
| `Reversi.Reversi.SetUpBoard` | Assets/Scripts/Reversi/Reversi.cs:145-168 | the board is the starting position on an emptied board, the tallies count it, and every square shows its count |
| `Reversi.Reversi.PutInitialStones` | Assets/Scripts/Reversi/Reversi.cs:199-214 | the black starting squares, then the white ones (which win a clash), are set; no count changes |
| `Reversi.Reversi.InitGameVariables` | Assets/Scripts/Reversi/Reversi.cs:216-228 | both tallies hold their clamped initial values |
| `Reversi.Reversi.UpdateCells` | Assets/Scripts/Reversi/Reversi.cs:233-239 | every square shows what the turn player would gain there; no stone moves |
| `Reversi.Reversi.UpdateStoneCount` | Assets/Scripts/Reversi/Reversi.cs:245-275 | only this square's count changes, to 0 where no stone can be put and otherwise to the stones gained |
| `Reversi.Reversi.CountStonesGained` | Assets/Scripts/Reversi/Reversi.cs:256-274 | the count loop gives one plus the run length of every sandwiched opponent stone around the square |
| `Reversi.Reversi.CanPutStone` | Assets/Scripts/Reversi/Reversi.cs:306-334 | false on an occupied square; otherwise true exactly when some adjacent opponent stone is sandwiched |
| `Reversi.Reversi.TurnOverStones` | Assets/Scripts/Reversi/Reversi.cs:474-492 | the recursive flip walk turns over the run of opponent stones from the given square; no count changes |
| `Reversi.Reversi.TurnOverSandwichedStones` | Assets/Scripts/Reversi/Reversi.cs:451-467 | each sandwiched run around the placed stone is flipped, in neighbour order; no count changes |
| `Reversi.Reversi.UpdateStoneCounts` | Assets/Scripts/Reversi/Reversi.cs:497-507 | each tally holds the clamped number of stones of its colour |
| `Reversi.Reversi.CountPuttableCells` | Assets/Scripts/Reversi/Reversi.cs:639-651 | the number of squares showing a positive count |
| `Reversi.Reversi.ChooseCell` | Assets/Scripts/Reversi/Reversi.cs:586-609 | the first placeable square in array order with the largest count |
| `Reversi.Reversi.SetPutPrev` | Assets/Scripts/Reversi/Player.cs:27 | only the chosen side's `PutStoneInPreviousTurn` flag changes |
| `Reversi.Reversi.SwitchTurn` | Assets/Scripts/Reversi/Reversi.cs:512-524 | the other side's turn begins: it plays, passes or the game ends; no stone moves |
| `Reversi.Reversi.OnTurnSwitched` | Assets/Scripts/Reversi/Reversi.cs:529-580 | every square is recounted for the new side. With a move it plays, the enemy queueing a click on its greedy choice behind those still pending. Without one, the game ends if the other side did not put a stone last turn (Clear only on a strict win); otherwise the side clears its flag and passes |
| `Reversi.Reversi.PlayTurn` | Assets/Scripts/Reversi/Reversi.cs:545-553 | with a move, the enemy queues a click on its greedy choice behind those still pending, and the player's turn waits; the pending clicks are otherwise kept |
| `Reversi.Reversi.NoMove` | Assets/Scripts/Reversi/Reversi.cs:555-578 | without a move, the game ends if the other side did not put a stone last turn; otherwise the side clears its flag and the turn passes |
| `Reversi.Reversi.EndGame` | Assets/Scripts/Reversi/Reversi.cs:561-569 | the game ends, Clear exactly when the player has strictly more stones, else GameOver |
| `Reversi.Reversi.OnStonePut` | Assets/Scripts/Reversi/Reversi.cs:412-420 | ignored while a placement is under way. Otherwise the board becomes the board after putting on the clicked square, the tallies count it, the flag is set and the turn is handed over |
| `Reversi.Reversi.OnStonePutCoroutine` | Assets/Scripts/Reversi/Reversi.cs:422-446 | the stone is put, the sandwiches turned, the tallies recounted, the turn player's flag set and the turn handed over, and the busy flag is cleared at the end |
| `Reversi.Reversi.HandTurnOver` | Assets/Scripts/Reversi/Reversi.cs:440-445 | the turn player's flag is set, the turn switches and the placement finishes; no stone moves |
| `Reversi.Reversi.PutStone` | Assets/Scripts/Reversi/Reversi.cs:424-436 | the board becomes the board after putting the turn player's stone on the clicked square, and the tallies count it |
| `Reversi.Reversi.OnCellClicked` | Assets/Scripts/Reversi/Reversi.cs:129-139 | an unreported click changes nothing. A reported click is remembered, and when no placement is under way the turn player gains exactly the count shown and the opponent one fewer, before the turn is handed over |
| `Reversi.Reversi.PutClickedStone` | Assets/Scripts/Reversi/Reversi.cs:134 | the clicked square is remembered and the stone put through `OnStonePut` |
| `Reversi.Reversi.OnScheduledClick` | Assets/Scripts/Reversi/Reversi.cs:550-551 | the oldest of the enemy's delayed clicks leaves the queue; when the square reports it, it becomes the clicked square, and otherwise nothing else changes |
| `Reversi.Reversi.OnGameStartButtonPressed` | Assets/Scripts/Reversi/Reversi.cs:669-672 | the game enters Play; the turn, the pending clicks, the registration, the busy flag, both pass flags and the last clicked square are kept |
| `Reversi.Reversi.OnRestartButtonPressed` | Assets/Scripts/Reversi/Reversi.cs:677-680 | the game enters Ready on the starting position with both tallies recounted; the turn, the registration, the busy flag, both pass flags, the last clicked square and the pending clicks are kept |

## Left out

- Engine lifecycle (`Start`, `Update`, `LateUpdate`), object instantiation (`InstantiateValues`) and the `GameBase`/`CellBase` state-setter plumbing are left out. Setting a game's state is modelled as a direct call to the matching branch of its `OnGameStateSet`.
- Display is left out: texts, colours, messages, the `Debug.Log` calls, `OnCellStateSet` and the other visual callbacks. The core never reads them back.
- The `GameEvent` bus is not part of this model. A raised event only bumps the variable's `raised` counter. A game handler that an event triggers is called directly: for example the Minesweeper reveal chain, and the Reversi `onStonePut` handler.
- Floating-point timing is left out: Minesweeper's remaining time, message timer and time bonus, the Game of Life interval, the lottery interval, and `FloatGameVariable`. Each appears as an input: the time-up event, the `intervalElapsed` flag, and the time bonus value.
- Randomness is left out: `OrderBy(Guid.NewGuid())` and `Random.Range` are arbitrary choices. A shuffle returns any permutation. The mine detector may pick any eligible mine.
- The Reversi coroutine waits are left out: putting the stone and turning the sandwiches over happen in one step, guarded by the busy flag. Each of the enemy's delayed `Invoke("OnClicked")` calls is queued as a pending click; a separate step, `OnScheduledClick`, delivers the oldest. Clicks are delivered in the order they were issued, since all share one delay; when each arrives relative to the player's clicks is left to the caller.
- Because of that atomic step, the model never sees a click during the wait. In the source, such a click (or the enemy's `Invoke`) still overwrites `lastClickedCell` (Reversi.cs:134) before the busy check turns it away, and the sandwiches flipped after the wait (Reversi.cs:454-458) are then found around the newly clicked square. That redirect is not modelled.
- The games index their boards with the corrected row-major index (see Findings) for any `Rows` and `Columns`. On a board that is not square the source aliases two squares or throws `IndexOutOfRangeException` in `GetValue`, `GetSurroundingValues`, `GetXValues`/`GetYValues` and every position derived from an index (the Game of Life update, the Minesweeper `lastOpenedCell`, the Reversi `lastClickedCell`); the model computes the intended result there instead. On a square board the two indices agree (`Grid.SquareSourceAgrees`), so there the model follows the code as written.
- Game values other than the random-number seeds and the Bingo number windows are unbounded integers: in Minesweeper the reward `reward += continusOpenBounus * bonusCount`, `coins.RuntimeValue += reward`, the item costs `coins.RuntimeValue -= cost`, the bonus `coins * coinBonusMultiplier` and the score sum, and the `++`/`--` on `bonusCount`, `playerLife`, the Game of Life `steps` and the lottery's `NumbersCount`. These are assumed to fit in 32 bits; the C# wrap-around that would happen before the clamping setter is not modelled.
- The Bingo configuration is taken as valid (`Bingo.Bingo.Valid`): the free square lies on the card. The source's `SetFreeCell` dereferences the null that `GetValue` returns for a position off the board; that failure is not modelled.
- The Reversi configuration is taken as valid (`Reversi.Reversi.Valid`): the two players have opposite colours and the initial stone positions lie on the board. The source dereferences a null cell for a position off the board; that failure is not modelled.
- `Player` is reduced to its colour and its `PutStoneInPreviousTurn` flag.
- The enum files for the Bingo, Reversi and Lottery states are not part of this model. Their values are taken from the uses in the engine classes. The unused `NextStepCellState` enum is left out.
- Cell positions are not stored in the cells; they are derived from the array index.
- `RandomUtility.GetRandomBoolArray`: the argument values that make the source throw (a negative size, or more trues than entries) are excluded by the precondition instead of being modelled as exceptions.
- `Bingo.Bingo.AssignRandomNumber` assumes the column windows and their bounds fit in 32 bits and that a window holds at least `Rows` numbers (`NumberWindowsFit`). The overflowing and short-window configurations, where the source wraps or indexes past the drawn array, are not modelled.
- `BingoLottery.LotteryMachine.constructor` requires `max < Int32Max`: the source's loop `for (i = min; i <= max; i++)` never ends when `max` is the largest `int`.
- `Minesweeper.Minesweeper.OnCellClicked` states only that an opened square ends open. The reveal cascade and the score effects of an open are stated on `OpenCell` and `OnSafeCellOpened`.
- `Reversi.Reversi.OnScheduledClick` states only that a delivered click is remembered, or that an unreported one just leaves the queue; what a reported click then does is `OnCellClicked`'s contract.

## Findings

| source | as written | input that shows it | evidently intended | confidence | as-written member | corrected member |
|---|---|---|---|---|---|---|
| Assets/Scripts/Common/MonoBehaviourArray2D.cs:72 | the flat index is `y * Rows + x` and the inverse is `(i % Columns, i / Rows)` | `Rows = 2`, `Columns = 3`: (2, 0) and (0, 1) share index 2. `Rows = 3`, `Columns = 2`: (1, 2) gets index 7 in an array of 6 | the row-major index `y * Columns + x` with inverse `(i % Columns, i / Columns)`, which is what every board in the games needs; on a square board the two agree (`Grid.SquareSourceAgrees`) | not executed | `Grid.SourceIndexAliases` | `Grid.ToPositionOfIndex` |
