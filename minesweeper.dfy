/**
 * The Minesweeper engine (`Minesweeper.Minesweeper`). Entering Ready clears the
 * board, buries `mineCount` mines at random, writes into every safe square the
 * number of mines around it and resets the counters. In Play a left click opens a
 * square: a mine costs a life (the game is over at zero lives) and resets the
 * streak bonus; a safe square pays coins plus the streak bonus, clears the game
 * once every safe square is open, opens the neighbours of an empty square (which
 * cascades) and flags the neighbours of an eight. Coins buy a mine detector or an
 * extra life. A cleared or lost game shows the whole board.
 *
 * The chain `Cell.Open` → `onSafeCellOpened` → `OnSafeCellOpened` →
 * `OpenSurroundingCells` → `Cell.Open` is modelled as direct calls, with the opened
 * square passed along instead of being stored in `lastOpenedCell`; the cascade
 * terminates because every `Open` opens a closed square.
 */
module Minesweeper {
  import opened Grid
  import opened Seqs
  import opened RandomUtility
  import opened GameVariable
  import opened MineCell

  datatype GameState = None | Ready | Play | Clear | GameOver

  /** The number of mines around `p`. */
  function MineNeighbours(s: Shape, values: seq<Cell>, p: Pos): (n: nat)
    requires |values| == s.Count()
    ensures n <= 8
  {
    Count(Neighbours(s, values, p), IsMineCell)
  }

  /** Only where the mines are matters to the mine count, not what else the squares hold. */
  lemma MineNeighboursDependOnMines(s: Shape, v: seq<Cell>, w: seq<Cell>, p: Pos)
    requires |v| == |w| == s.Count()
    requires forall j :: 0 <= j < |v| ==> IsMineCell(v[j]) == IsMineCell(w[j])
    ensures MineNeighbours(s, v, p) == MineNeighbours(s, w, p)
  {
    var nv, nw := Neighbours(s, v, p), Neighbours(s, w, p);
    forall k | 0 <= k < |nv|
      ensures IsMineCell(nv[k]) == IsMineCell(nw[k])
    {
      SurroundingShape(s, p);
    }
    CountPointwise(nv, nw, IsMineCell);
  }

  /** Every safe square shows the number of mines around it. */
  ghost predicate CountsConsistent(s: Shape, values: seq<Cell>)
    requires |values| == s.Count()
  {
    forall p :: s.Contains(p) && values[s.Index(p)].state != Mine ==>
      values[s.Index(p)].state == Safe(MineNeighbours(s, values, p))
  }

  /** The board after `UpdateCellsStatus`: every safe square gets the mine count of its neighbourhood. */
  function StatusUpdated(s: Shape, values: seq<Cell>): (r: seq<Cell>)
    requires |values| == s.Count()
    ensures |r| == |values|
    ensures forall k :: 0 <= k < |r| ==> IsMineCell(r[k]) == IsMineCell(values[k])
    ensures forall k :: 0 <= k < |r| ==> r[k].(state := values[k].state) == values[k]
  {
    seq(|values|, k requires 0 <= k < |values| =>
      ColumnsOfNonEmpty(s, k);
      if values[k].state == Mine then values[k]
      else values[k].(state := Safe(MineNeighbours(s, values, s.ToPosition(k)))))
  }

  /** `UpdateCellsStatus` leaves a board on which every number is right. */
  lemma StatusUpdatedConsistent(s: Shape, values: seq<Cell>)
    requires |values| == s.Count()
    ensures CountsConsistent(s, StatusUpdated(s, values))
  {
    var r := StatusUpdated(s, values);
    forall p | s.Contains(p) && r[s.Index(p)].state != Mine
      ensures r[s.Index(p)].state == Safe(MineNeighbours(s, r, p))
    {
      ToPositionOfIndex(s, p);
      MineNeighboursDependOnMines(s, r, values, p);
    }
  }

  /** On a consistent board an empty square has no mine around it, so the cascade opens every neighbour. */
  lemma ZeroMeansNoMines(s: Shape, values: seq<Cell>, p: Pos)
    requires |values| == s.Count() && CountsConsistent(s, values)
    requires s.Contains(p) && values[s.Index(p)].state == MineCell.None
    ensures forall q <- Surrounding(s, p) :: values[s.Index(q)].state != Mine
  {
    var n := Neighbours(s, values, p);
    forall q | q in Surrounding(s, p)
      ensures values[s.Index(q)].state != Mine
    {
      var t :| 0 <= t < |Surrounding(s, p)| && Surrounding(s, p)[t] == q;
      CountZero(n, IsMineCell, t);
    }
  }

  /** On a consistent board every neighbour of an eight is a mine, so flagging them all is safe. */
  lemma EightMeansAllMines(s: Shape, values: seq<Cell>, p: Pos)
    requires |values| == s.Count() && CountsConsistent(s, values)
    requires s.Contains(p) && values[s.Index(p)].state == Eight
    ensures forall q <- Surrounding(s, p) :: values[s.Index(q)].state == Mine
  {
    var n := Neighbours(s, values, p);
    forall q | q in Surrounding(s, p)
      ensures values[s.Index(q)].state == Mine
    {
      var t :| 0 <= t < |Surrounding(s, p)| && Surrounding(s, p)[t] == q;
      CountFull(n, IsMineCell, t);
    }
  }

  /** No element counted: none satisfies the predicate. */
  lemma {:induction false} CountZero<T>(s: seq<T>, f: T -> bool, t: int)
    requires Count(s, f) == 0 && 0 <= t < |s|
    ensures !f(s[t])
  {
    if t < |s| - 1 {
      CountZero(s[..|s| - 1], f, t);
    }
  }

  /** Every element counted: all satisfy the predicate. */
  lemma {:induction false} CountFull<T>(s: seq<T>, f: T -> bool, t: int)
    requires Count(s, f) >= |s| && 0 <= t < |s|
    ensures f(s[t])
  {
    if t < |s| - 1 {
      CountFull(s[..|s| - 1], f, t);
    }
  }

  /** Every safe square is open (`AllCellsHasOpenedExceptMine`). */
  predicate AllSafeOpened(values: seq<Cell>) {
    forall j :: 0 <= j < |values| ==> values[j].isOpened || values[j].state == Mine
  }

  /** Every square is open and unflagged, as at the end of a game. */
  predicate AllRevealed(values: seq<Cell>) {
    forall j :: 0 <= j < |values| ==> values[j].isOpened && !values[j].flagged
  }

  /** The number of closed squares: the measure that makes the cascade terminate. */
  function Unopened(values: seq<Cell>): nat {
    Count(values, IsClosed)
  }

  /** The board after `OpenCellsWithoutRaisingEvents`. */
  function RevealAll(values: seq<Cell>): (r: seq<Cell>)
    ensures |r| == |values|
  {
    seq(|values|, k requires 0 <= k < |values| => OpenWithoutRaisingEvents(values[k]))
  }

  /** Revealing the board opens every square, keeps every state, and leaves nothing to open. */
  lemma RevealAllReveals(values: seq<Cell>)
    ensures AllRevealed(RevealAll(values)) && AllSafeOpened(RevealAll(values))
    ensures forall j :: 0 <= j < |values| ==> RevealAll(values)[j].state == values[j].state
  {
  }

  /** A square the mine detector may pick: a mine, optionally not opened and not flagged. */
  predicate MineCandidate(c: Cell, exceptOpened: bool, exceptFlagRaised: bool) {
    c.state == Mine && !(exceptOpened && c.isOpened) && !(exceptFlagRaised && c.flagged)
  }

  class Minesweeper {
    const cells: Array2D<Cell>
    const mineCount: int
    const coinEarnedWhenSafeCellOpened: int
    const continusOpenBounus: int
    const coinBonusMultiplier: int
    const mineDetectionCost: IntGameVariable
    const increasingLifeCost: IntGameVariable
    const playerLife: IntGameVariable
    const coins: IntGameVariable
    const coinBonus: IntGameVariable
    const timeBonus: IntGameVariable
    const score: IntGameVariable
    /** How many safe squares have been opened in a row without hitting a mine. */
    var bonusCount: int
    var state: GameState
    /** Whether the cells' `SafeCellOpened` and `AcceptClick` handlers are registered. */
    var eventsRegistered: bool
    /** The time bonus the remaining time is worth (a floor of a float product, not computed here). */
    var timeBonusValue: int

    function Counters(): seq<IntGameVariable> {
      [coins, playerLife, mineDetectionCost, increasingLifeCost, coinBonus, timeBonus, score]
    }

    ghost predicate Valid()
      reads this, cells, Counters()
    {
      cells.Valid()
      && (forall i, j :: 0 <= i < j < |Counters()| ==> Counters()[i] != Counters()[j])
      && (forall g <- Counters() :: g.LimitsConsistent())
    }

    /**
     * Wires the serialized configuration only, as the engine does before `Start`.
     * The game is usable once `Init` has run: `Init` establishes `Valid()`.
     */
    constructor (cells: Array2D<Cell>, mineCount: int, coinEarnedWhenSafeCellOpened: int,
                 continusOpenBounus: int, coinBonusMultiplier: int,
                 mineDetectionCost: IntGameVariable, increasingLifeCost: IntGameVariable,
                 playerLife: IntGameVariable, coins: IntGameVariable,
                 coinBonus: IntGameVariable, timeBonus: IntGameVariable, score: IntGameVariable)
      ensures this.cells == cells && this.mineCount == mineCount
      ensures this.coinEarnedWhenSafeCellOpened == coinEarnedWhenSafeCellOpened
      ensures this.continusOpenBounus == continusOpenBounus && this.coinBonusMultiplier == coinBonusMultiplier
      ensures Counters() == [coins, playerLife, mineDetectionCost, increasingLifeCost, coinBonus, timeBonus, score]
      ensures bonusCount == 0 && state == GameState.None && !eventsRegistered
    {
      this.cells, this.mineCount := cells, mineCount;
      this.coinEarnedWhenSafeCellOpened, this.continusOpenBounus := coinEarnedWhenSafeCellOpened, continusOpenBounus;
      this.coinBonusMultiplier := coinBonusMultiplier;
      this.mineDetectionCost, this.increasingLifeCost := mineDetectionCost, increasingLifeCost;
      this.playerLife, this.coins := playerLife, coins;
      this.coinBonus, this.timeBonus, this.score := coinBonus, timeBonus, score;
      bonusCount := 0;
      state := GameState.None;
      eventsRegistered := false;
      timeBonusValue := 0;
    }

    /** `Init`: register the cell handlers, then enter Ready. */
    method Init()
      requires Valid()
      modifies this, cells, cells.Values, coins, playerLife, mineDetectionCost, increasingLifeCost, coinBonus, timeBonus, score
      ensures Valid() && state == Ready && eventsRegistered && bonusCount == old(bonusCount)
      ensures cells.Values == old(cells.Values)
      ensures forall j :: 0 <= j < cells.Values.Length ==>
                !cells.Values[j].isOpened && !cells.Values[j].flagged && !cells.Values[j].isMineDefinitely
      ensures Count(cells.Values[..], IsMineCell) == if 0 <= mineCount < cells.Values.Length then mineCount else 0
      ensures CountsConsistent(cells.Dims(), cells.Values[..])
      ensures forall g <- Counters() :: g.runtimeValue == g.Clamp(g.initialValue)
    {
      eventsRegistered := true;
      EnterReady();
    }

    /**
     * Entering Ready (`OnGameStateSet`): every square closed and cleared, the mines
     * buried, the numbers written, every counter back to its initial value. The
     * streak bonus is not reset.
     */
    method EnterReady()
      requires Valid()
      modifies this, cells, cells.Values, coins, playerLife, mineDetectionCost, increasingLifeCost, coinBonus, timeBonus, score
      ensures Valid() && state == Ready
      ensures eventsRegistered == old(eventsRegistered) && bonusCount == old(bonusCount)
      ensures cells.Values == old(cells.Values)
      ensures forall j :: 0 <= j < cells.Values.Length ==>
                !cells.Values[j].isOpened && !cells.Values[j].flagged && !cells.Values[j].isMineDefinitely
      ensures Count(cells.Values[..], IsMineCell) == if 0 <= mineCount < cells.Values.Length then mineCount else 0
      ensures CountsConsistent(cells.Dims(), cells.Values[..])
      ensures forall g <- Counters() :: g.runtimeValue == g.Clamp(g.initialValue)
    {
      state := Ready;
      PrepareBoard();
      InitGameVariables();
    }

    /** The board part of entering Ready: clear every square, bury the mines, write the numbers. */
    method PrepareBoard()
      requires Valid()
      modifies cells, cells.Values
      ensures Valid()
      ensures cells.Values == old(cells.Values)
      ensures forall j :: 0 <= j < cells.Values.Length ==>
                !cells.Values[j].isOpened && !cells.Values[j].flagged && !cells.Values[j].isMineDefinitely
      ensures Count(cells.Values[..], IsMineCell) == if 0 <= mineCount < cells.Values.Length then mineCount else 0
      ensures CountsConsistent(cells.Dims(), cells.Values[..])
    {
      ClearAndBury();
      ghost var buried := cells.Values[..];
      UpdateCellsStatus();
      StatusUpdatedConsistent(cells.Dims(), buried);
      CountPointwise(cells.Values[..], buried, IsMineCell);
    }

    /** Clear every square, then bury the mines. */
    method ClearAndBury()
      requires Valid()
      modifies cells, cells.Values
      ensures Valid()
      ensures cells.Values == old(cells.Values)
      ensures forall j :: 0 <= j < cells.Values.Length ==>
                !cells.Values[j].isOpened && !cells.Values[j].flagged && !cells.Values[j].isMineDefinitely
      ensures Count(cells.Values[..], IsMineCell) == if 0 <= mineCount < cells.Values.Length then mineCount else 0
    {
      cells.Init(MineCell.Init);
      ghost var cleared := cells.Values[..];
      assert forall c <- cleared :: !IsMineCell(c);
      BuryMines();
      if mineCount >= cells.Values.Length {
        CountZeroes(cleared, IsMineCell);
      }
    }

    /** `InitGameVariables`: every counter back to its initial value. */
    method InitGameVariables()
      requires Valid()
      modifies coins, playerLife, mineDetectionCost, increasingLifeCost, coinBonus, timeBonus, score
      ensures Valid()
      ensures forall g <- Counters() :: g.runtimeValue == g.Clamp(g.initialValue)
    {
      var initializables := Counters();
      for i := 0 to |initializables|
        invariant Valid()
        invariant forall j :: 0 <= j < i ==> initializables[j].runtimeValue == initializables[j].Clamp(initializables[j].initialValue)
      {
        initializables[i].Init();
      }
    }

    /**
     * `BuryMines`: abandoned unless there are more squares than mines; otherwise a
     * random selection of exactly `mineCount` squares (none when it is negative)
     * becomes mines, and nothing else changes.
     */
    method BuryMines()
      requires Valid()
      modifies cells.Values
      ensures mineCount >= cells.Values.Length ==> cells.Values[..] == old(cells.Values[..])
      ensures mineCount < cells.Values.Length ==>
                exists isMine: seq<bool> ::
                  |isMine| == cells.Values.Length
                  && Count(isMine, IsTrue) == (if mineCount < 0 then 0 else mineCount)
                  && cells.Values[..] == MarkWhere(old(cells.Values[..]), isMine, Bury)
      ensures mineCount < cells.Values.Length && (forall c <- old(cells.Values[..]) :: !IsMineCell(c)) ==>
                Count(cells.Values[..], IsMineCell) == if mineCount < 0 then 0 else mineCount
      ensures forall j :: 0 <= j < cells.Values.Length ==>
                cells.Values[j].isOpened == old(cells.Values[j].isOpened) && cells.Values[j].flagged == old(cells.Values[j].flagged)
                && cells.Values[j].isMineDefinitely == old(cells.Values[j].isMineDefinitely)
    {
      var values := cells.Values;
      var cellCount := values.Length;
      if mineCount >= cellCount {
        return;
      }
      var isMine := GetRandomBoolArray(cellCount, mineCount);
      ghost var before := values[..];
      for i := 0 to cellCount
        invariant forall j :: 0 <= j < i ==> values[j] == MarkWhere(before, isMine, Bury)[j]
        invariant forall j :: i <= j < cellCount ==> values[j] == before[j]
      {
        if isMine[i] {
          values[i] := Bury(values[i]);
        }
      }
      assert values[..] == MarkWhere(before, isMine, Bury);
      if forall c <- before :: !IsMineCell(c) {
        MarkWhereCount(before, isMine, Bury, IsMineCell);
      }
    }

    /** `UpdateCellsStatus`: row by row, every safe square gets the number of mines around it. */
    method UpdateCellsStatus()
      requires Valid()
      modifies cells.Values
      ensures cells.Values[..] == StatusUpdated(cells.Dims(), old(cells.Values[..]))
    {
      var s := cells.Dims();
      ghost var before := cells.Values[..];
      ghost var target := StatusUpdated(s, before);
      for y := 0 to cells.Rows
        invariant forall j :: 0 <= j < y * s.columns && j < cells.Values.Length ==> cells.Values[j] == target[j]
        invariant forall j :: y * s.columns <= j < cells.Values.Length ==> cells.Values[j] == before[j]
      {
        for x := 0 to cells.Columns
          invariant forall j :: 0 <= j < y * s.columns + x && j < cells.Values.Length ==> cells.Values[j] == target[j]
          invariant forall j :: y * s.columns + x <= j < cells.Values.Length ==> cells.Values[j] == before[j]
        {
          UpdateCellStatus(x, y, before);
        }
        assert y * s.columns + s.columns == (y + 1) * s.columns;
      }
      assert cells.Values[..] == target;
    }

    /** One square of `UpdateCellsStatus`: a safe square at (x, y) gets its mine count; a mine is skipped. */
    method UpdateCellStatus(x: int, y: int, ghost before: seq<Cell>)
      requires Valid() && 0 <= x < cells.Columns && 0 <= y < cells.Rows
      requires |before| == cells.Values.Length
      requires forall j :: 0 <= j < |before| ==> IsMineCell(cells.Values[j]) == IsMineCell(before[j])
      requires cells.Values[cells.Dims().Index(Pos(x, y))] == before[cells.Dims().Index(Pos(x, y))]
      modifies cells.Values
      ensures cells.Values[..] ==
                old(cells.Values[..])[cells.Dims().Index(Pos(x, y)) := StatusUpdated(cells.Dims(), before)[cells.Dims().Index(Pos(x, y))]]
    {
      var s := cells.Dims();
      var i := s.Index(Pos(x, y));
      var cell := GetValue(s, cells.Values[..], x, y).value;
      if cell.state == Mine {
        return;
      }
      var surroundingMines := CountSurroundingMines(x, y);
      ToPositionOfIndex(s, Pos(x, y));
      MineNeighboursDependOnMines(s, cells.Values[..], before, Pos(x, y));
      cells.Values[i] := cell.(state := Safe(surroundingMines));
    }

    /** `CountSurroundingMines`: the number of mines around (x, y), counted over the neighbour list. */
    method CountSurroundingMines(x: int, y: int) returns (count: int)
      requires Valid()
      ensures count == MineNeighbours(cells.Dims(), cells.Values[..], Pos(x, y))
      ensures 0 <= count <= 8
    {
      count := 0;
      var surroundings := cells.GetSurroundingValues(x, y);
      for i := 0 to |surroundings|
        invariant count == Count(surroundings[..i], IsMineCell)
      {
        assert surroundings[..i + 1][..i] == surroundings[..i];
        if surroundings[i].state == Mine {
          count := count + 1;
        }
      }
      assert surroundings[..|surroundings|] == surroundings;
    }

    /** `AllCellsHasOpenedExceptMine`. */
    method AllCellsHasOpenedExceptMine() returns (result: bool)
      requires Valid()
      ensures result == AllSafeOpened(cells.Values[..])
    {
      result := true;
      for i := 0 to cells.Values.Length
        invariant result == forall j :: 0 <= j < i ==> cells.Values[j].isOpened || cells.Values[j].state == Mine
      {
        if !cells.Values[i].isOpened && cells.Values[i].state != Mine {
          result := false;
        }
      }
    }

    /** `OnStartButtonPressed`: enter Play. */
    method OnStartButtonPressed()
      modifies this
      ensures state == Play && eventsRegistered == old(eventsRegistered) && bonusCount == old(bonusCount)
    {
      state := Play;
    }

    /** `OnRestartButtonPressed`: enter Ready again with a new board. */
    method OnRestartButtonPressed()
      requires Valid()
      modifies this, cells, cells.Values, coins, playerLife, mineDetectionCost, increasingLifeCost, coinBonus, timeBonus, score
      ensures Valid() && state == Ready
      ensures eventsRegistered == old(eventsRegistered) && bonusCount == old(bonusCount)
      ensures cells.Values == old(cells.Values)
      ensures forall j :: 0 <= j < cells.Values.Length ==>
                !cells.Values[j].isOpened && !cells.Values[j].flagged && !cells.Values[j].isMineDefinitely
      ensures Count(cells.Values[..], IsMineCell) == if 0 <= mineCount < cells.Values.Length then mineCount else 0
      ensures CountsConsistent(cells.Dims(), cells.Values[..])
      ensures forall g <- Counters() :: g.runtimeValue == g.Clamp(g.initialValue)
    {
      EnterReady();
    }

    /** The `AcceptClick` handler: clicks are taken only in Play. */
    predicate AcceptClick()
      reads this
    {
      state == Play
    }

    /**
     * A click on square `k`: with the handlers registered and the game in Play, a
     * left click opens a closed unflagged square and a right click toggles the
     * flag of a closed square; anything else leaves the game as it is.
     */
    method OnCellClicked(k: int, button: MouseButton)
      requires Valid() && 0 <= k < cells.Values.Length
      modifies this, cells.Values, coins, playerLife, coinBonus, timeBonus, score
      ensures Valid()
      ensures old(OnClicked(cells.Values[k], eventsRegistered, AcceptClick(), button)) == Ignore ==>
                cells.Values[..] == old(cells.Values[..]) && state == old(state)
      ensures old(OnClicked(cells.Values[k], eventsRegistered, AcceptClick(), button)) == ToggleFlag ==>
                cells.Values[..] == old(cells.Values[..])[k := RaiseOrRemoveFlag(old(cells.Values[k]))] && state == old(state)
      ensures old(OnClicked(cells.Values[k], eventsRegistered, AcceptClick(), button)) != OpenSquare ==>
                unchanged(this, coins, playerLife, coinBonus, timeBonus, score)
      ensures old(OnClicked(cells.Values[k], eventsRegistered, AcceptClick(), button)) == OpenSquare ==>
                cells.Values[k].isOpened
    {
      var action := OnClicked(cells.Values[k], eventsRegistered, AcceptClick(), button);
      if action == OpenSquare {
        OpenCell(k);
      } else if action == ToggleFlag {
        cells.Values[k] := RaiseOrRemoveFlag(cells.Values[k]);
      }
    }

    /**
     * `Cell.Open` on square `k` with the events it raises: opened and unflagged, then
     * a mine costs a life and a safe square pays and may cascade. Squares never
     * close and never change what they hide. Opening a safe square never loses the
     * game; while it is still on, every square this call opened paid the streak
     * bonus once and some safe square is still closed.
     */
    method OpenCell(k: int)
      requires Valid() && state == Play && 0 <= k < cells.Values.Length && !cells.Values[k].isOpened
      modifies this, cells.Values, coins, playerLife, coinBonus, timeBonus, score
      decreases Unopened(cells.Values[..]), 0
      ensures Valid() && eventsRegistered == old(eventsRegistered)
      ensures forall j :: 0 <= j < cells.Values.Length ==> cells.Values[j].state == old(cells.Values[j].state)
      ensures forall j :: 0 <= j < cells.Values.Length ==> old(cells.Values[j].isOpened) ==> cells.Values[j].isOpened
      ensures cells.Values[k].isOpened
      ensures state == Play || ((state == Clear || state == GameState.GameOver) && AllRevealed(cells.Values[..]))
      ensures old(cells.Values[k].state) != Mine ==>
                state != GameState.GameOver && playerLife.runtimeValue == old(playerLife.runtimeValue)
      ensures old(cells.Values[k].state) != Mine && state == Play ==>
                !AllSafeOpened(cells.Values[..])
                && bonusCount == old(bonusCount) + (Unopened(old(cells.Values[..])) - Unopened(cells.Values[..]))
      ensures old(cells.Values[k].state) == Mine ==>
                playerLife.runtimeValue == playerLife.Clamp(old(playerLife.runtimeValue) - 1) && bonusCount == 0
                && (state == GameState.GameOver <==> playerLife.runtimeValue <= 0)
                && coins.runtimeValue == old(coins.runtimeValue)
    {
      ghost var before := cells.Values[..];
      ghost var cs := Counters();
      assert cs[0] == coins && cs[1] == playerLife;
      CountUpdate(before, k, Open(before[k]), IsClosed);
      cells.Values[k] := Open(cells.Values[k]);
      if cells.Values[k].state == Mine {
        OnMineCellOpened();
      } else {
        OnSafeCellOpened(k);
      }
    }

    /**
     * `OnSafeCellOpened` for the safe square `k` just opened: collect the reward,
     * then clear the game if every safe square is open, or else cascade from an
     * empty square or flag around an eight.
     */
    method OnSafeCellOpened(k: int)
      requires Valid() && state == Play && 0 <= k < cells.Values.Length
      requires cells.Values[k].isOpened && cells.Values[k].state != Mine
      modifies this, cells.Values, coins, playerLife, coinBonus, timeBonus, score
      decreases Unopened(cells.Values[..]), 3
      ensures Valid() && eventsRegistered == old(eventsRegistered)
      ensures forall j :: 0 <= j < cells.Values.Length ==> cells.Values[j].state == old(cells.Values[j].state)
      ensures forall j :: 0 <= j < cells.Values.Length ==> old(cells.Values[j].isOpened) ==> cells.Values[j].isOpened
      ensures state == Play || (state == Clear && AllRevealed(cells.Values[..]))
      ensures playerLife.runtimeValue == old(playerLife.runtimeValue)
      ensures AllSafeOpened(old(cells.Values[..])) ==> state == Clear
      ensures AllSafeOpened(old(cells.Values[..])) || old(cells.Values[k].state) != MineCell.None ==>
                coins.runtimeValue ==
                  coins.Clamp(old(coins.runtimeValue) + coinEarnedWhenSafeCellOpened + continusOpenBounus * old(bonusCount))
                && bonusCount == old(bonusCount) + 1
      ensures state == Play ==>
                !AllSafeOpened(cells.Values[..])
                && bonusCount == old(bonusCount) + 1 + (Unopened(old(cells.Values[..])) - Unopened(cells.Values[..]))
      ensures !AllSafeOpened(old(cells.Values[..])) && old(cells.Values[k].state) == MineCell.None ==>
                forall q <- Surrounding(cells.Dims(), cells.Dims().ToPosition(k)) ::
                  cells.Values[cells.Dims().Index(q)].isOpened || cells.Values[cells.Dims().Index(q)].state == Mine
      ensures !AllSafeOpened(old(cells.Values[..])) && old(cells.Values[k].state) == Eight ==>
                forall q <- Surrounding(cells.Dims(), cells.Dims().ToPosition(k)) ::
                  cells.Values[cells.Dims().Index(q)].flagged && cells.Values[cells.Dims().Index(q)].isMineDefinitely
    {
      ghost var cs := Counters();
      assert cs[0] == coins && cs[1] == playerLife && cs[4] == coinBonus && cs[5] == timeBonus && cs[6] == score;
      CollectReward();
      var allOpened := AllCellsHasOpenedExceptMine();
      if allOpened {
        EnterClear();
      } else {
        DeduceAroundOpenedCell(k);
      }
    }

    /**
     * The deduction part of `OnSafeCellOpened`, while some safe square is still
     * closed: around an empty square every square is safe and is opened, around an
     * eight every square is a mine and is flagged; other numbers change nothing.
     */
    method DeduceAroundOpenedCell(k: int)
      requires Valid() && state == Play && 0 <= k < cells.Values.Length && !AllSafeOpened(cells.Values[..])
      modifies this, cells.Values, coins, playerLife, coinBonus, timeBonus, score
      decreases Unopened(cells.Values[..]), 2
      ensures Valid() && eventsRegistered == old(eventsRegistered)
      ensures forall j :: 0 <= j < cells.Values.Length ==> cells.Values[j].state == old(cells.Values[j].state)
      ensures forall j :: 0 <= j < cells.Values.Length ==> old(cells.Values[j].isOpened) ==> cells.Values[j].isOpened
      ensures state == Play || (state == Clear && AllRevealed(cells.Values[..]))
      ensures playerLife.runtimeValue == old(playerLife.runtimeValue)
      ensures old(cells.Values[k].state) != MineCell.None ==>
                coins.runtimeValue == old(coins.runtimeValue) && bonusCount == old(bonusCount)
                && state == Play && Unopened(cells.Values[..]) == Unopened(old(cells.Values[..]))
      ensures state == Play ==>
                !AllSafeOpened(cells.Values[..])
                && bonusCount == old(bonusCount) + (Unopened(old(cells.Values[..])) - Unopened(cells.Values[..]))
      ensures old(cells.Values[k].state) == MineCell.None ==>
                forall q <- Surrounding(cells.Dims(), cells.Dims().ToPosition(k)) ::
                  cells.Values[cells.Dims().Index(q)].isOpened || cells.Values[cells.Dims().Index(q)].state == Mine
      ensures old(cells.Values[k].state) == Eight ==>
                forall q <- Surrounding(cells.Dims(), cells.Dims().ToPosition(k)) ::
                  cells.Values[cells.Dims().Index(q)].flagged && cells.Values[cells.Dims().Index(q)].isMineDefinitely
    {
      var s := cells.Dims();
      ColumnsOfNonEmpty(s, k);
      if cells.Values[k].state == MineCell.None {
        OpenSurroundingCells(s.ToPosition(k));
      } else if cells.Values[k].state == Eight {
        ghost var mid := cells.Values[..];
        FlagSurroundingMines(s.ToPosition(k));
        CountPointwise(cells.Values[..], mid, IsClosed);
      }
    }

    /** The reward part of `OnSafeCellOpened`: the base reward plus the streak bonus, then a longer streak. */
    method CollectReward()
      requires Valid()
      modifies this, coins
      ensures Valid()
      ensures coins.runtimeValue ==
                coins.Clamp(old(coins.runtimeValue) + coinEarnedWhenSafeCellOpened + continusOpenBounus * old(bonusCount))
      ensures bonusCount == old(bonusCount) + 1
      ensures state == old(state) && eventsRegistered == old(eventsRegistered) && timeBonusValue == old(timeBonusValue)
    {
      var reward := coinEarnedWhenSafeCellOpened;
      reward := reward + continusOpenBounus * bonusCount;
      coins.SetRuntimeValue(coins.runtimeValue + reward);
      bonusCount := bonusCount + 1;
    }

    /**
     * `OpenSurroundingCells`: open every closed safe square around `position`, in
     * neighbour order, each open cascading in turn; a square opened by an earlier
     * cascade is not opened again.
     */
    method OpenSurroundingCells(position: Pos)
      requires Valid() && state == Play && !AllSafeOpened(cells.Values[..])
      modifies this, cells.Values, coins, playerLife, coinBonus, timeBonus, score
      decreases Unopened(cells.Values[..]), 1
      ensures Valid() && eventsRegistered == old(eventsRegistered)
      ensures forall j :: 0 <= j < cells.Values.Length ==> cells.Values[j].state == old(cells.Values[j].state)
      ensures forall j :: 0 <= j < cells.Values.Length ==> old(cells.Values[j].isOpened) ==> cells.Values[j].isOpened
      ensures state == Play || (state == Clear && AllRevealed(cells.Values[..]))
      ensures playerLife.runtimeValue == old(playerLife.runtimeValue)
      ensures state == Play ==>
                !AllSafeOpened(cells.Values[..])
                && bonusCount == old(bonusCount) + (Unopened(old(cells.Values[..])) - Unopened(cells.Values[..]))
      ensures forall q <- Surrounding(cells.Dims(), position) ::
                cells.Values[cells.Dims().Index(q)].isOpened || cells.Values[cells.Dims().Index(q)].state == Mine
    {
      var s := cells.Dims();
      var surroundings := Surrounding(s, position);
      ghost var before := cells.Values[..];
      ghost var bonus0 := bonusCount;
      ghost var life0 := playerLife.runtimeValue;
      for i := 0 to |surroundings|
        invariant Valid() && eventsRegistered == old(eventsRegistered)
        invariant forall j :: 0 <= j < cells.Values.Length ==> cells.Values[j].state == before[j].state
        invariant forall j :: 0 <= j < cells.Values.Length ==> before[j].isOpened ==> cells.Values[j].isOpened
        invariant state == Play || (state == Clear && AllRevealed(cells.Values[..]))
        invariant playerLife.runtimeValue == life0
        invariant Unopened(cells.Values[..]) <= Unopened(before)
        invariant state == Play ==>
                    !AllSafeOpened(cells.Values[..]) && bonusCount == bonus0 + (Unopened(before) - Unopened(cells.Values[..]))
        invariant forall t :: 0 <= t < i ==>
                    cells.Values[s.Index(surroundings[t])].isOpened || cells.Values[s.Index(surroundings[t])].state == Mine
      {
        var k := s.Index(surroundings[i]);
        if !cells.Values[k].isOpened && cells.Values[k].state != Mine {
          ghost var mid := cells.Values[..];
          OpenCell(k);
          CountMonotone(cells.Values[..], mid, IsClosed);
        }
      }
    }

    /** `FlagSurroundingMines`: flag every square around `position` as a certain mine; nothing else changes. */
    method FlagSurroundingMines(position: Pos)
      requires Valid()
      modifies cells.Values
      ensures forall j :: 0 <= j < cells.Values.Length ==>
                cells.Values[j] == if j in IndicesOf(cells.Dims(), Surrounding(cells.Dims(), position))
                                   then MarkMine(old(cells.Values[j])) else old(cells.Values[j])
      ensures forall q <- Surrounding(cells.Dims(), position) ::
                cells.Values[cells.Dims().Index(q)].flagged && cells.Values[cells.Dims().Index(q)].isMineDefinitely
      ensures forall j :: 0 <= j < cells.Values.Length ==>
                cells.Values[j].state == old(cells.Values[j].state) && cells.Values[j].isOpened == old(cells.Values[j].isOpened)
    {
      var s := cells.Dims();
      var surroundings := Surrounding(s, position);
      ghost var before := cells.Values[..];
      for i := 0 to |surroundings|
        invariant forall j :: 0 <= j < cells.Values.Length ==>
                    cells.Values[j] == if j in IndicesOf(s, surroundings[..i]) then MarkMine(before[j]) else before[j]
      {
        IndicesOfStep(s, surroundings, i);
        var k := s.Index(surroundings[i]);
        cells.Values[k] := MarkMine(cells.Values[k]);
      }
      assert surroundings[..|surroundings|] == surroundings;
    }

    /** `OnMineCellOpened`: one life less, the streak broken, and the game lost at zero lives. */
    method OnMineCellOpened()
      requires Valid()
      modifies this, cells.Values, playerLife
      ensures Valid() && eventsRegistered == old(eventsRegistered)
      ensures playerLife.runtimeValue == playerLife.Clamp(old(playerLife.runtimeValue) - 1)
      ensures bonusCount == 0
      ensures playerLife.runtimeValue <= 0 ==>
                state == GameState.GameOver && cells.Values[..] == RevealAll(old(cells.Values[..]))
      ensures playerLife.runtimeValue > 0 ==>
                state == old(state) && cells.Values[..] == old(cells.Values[..])
    {
      playerLife.SetRuntimeValue(playerLife.runtimeValue - 1);
      bonusCount := 0;
      if playerLife.runtimeValue <= 0 {
        GameOver();
      }
    }

    /** `GameOver`: the game is lost and the whole board is shown. */
    method GameOver()
      requires Valid()
      modifies this, cells.Values
      ensures Valid() && state == GameState.GameOver
      ensures eventsRegistered == old(eventsRegistered) && bonusCount == old(bonusCount)
      ensures cells.Values[..] == RevealAll(old(cells.Values[..]))
    {
      state := GameState.GameOver;
      OpenCellsWithoutRaisingEvents();
    }

    /** The update that finds the time run out in Play: the game is lost. */
    method OnTimeUp()
      requires Valid()
      modifies this, cells.Values
      ensures old(state) == Play ==> state == GameState.GameOver && cells.Values[..] == RevealAll(old(cells.Values[..]))
      ensures old(state) != Play ==> state == old(state) && cells.Values[..] == old(cells.Values[..])
    {
      if state == Play {
        GameOver();
      }
    }

    /** Entering Clear: show the whole board and compute the score. */
    method EnterClear()
      requires Valid()
      modifies this, cells.Values, coinBonus, timeBonus, score
      ensures Valid() && state == Clear
      ensures eventsRegistered == old(eventsRegistered) && bonusCount == old(bonusCount)
      ensures cells.Values[..] == RevealAll(old(cells.Values[..]))
      ensures coinBonus.runtimeValue == coinBonus.Clamp(coins.runtimeValue * coinBonusMultiplier)
      ensures timeBonus.runtimeValue == timeBonus.Clamp(old(timeBonusValue))
      ensures score.runtimeValue == score.Clamp(coins.runtimeValue * coinBonusMultiplier + old(timeBonusValue))
    {
      state := Clear;
      OpenCellsWithoutRaisingEvents();
      SetScore();
    }

    /**
     * `SetScore`: the coin bonus is the coins times the multiplier, and the score is
     * the unclamped coin bonus plus the time bonus.
     */
    method SetScore()
      requires Valid()
      modifies coinBonus, timeBonus, score
      ensures Valid()
      ensures coinBonus.runtimeValue == coinBonus.Clamp(coins.runtimeValue * coinBonusMultiplier)
      ensures timeBonus.runtimeValue == timeBonus.Clamp(timeBonusValue)
      ensures score.runtimeValue == score.Clamp(coins.runtimeValue * coinBonusMultiplier + timeBonusValue)
    {
      ghost var cs := Counters();
      assert cs[0] == coins && cs[4] == coinBonus && cs[5] == timeBonus && cs[6] == score;
      var coinBonusValue := coins.runtimeValue * coinBonusMultiplier;
      coinBonus.SetRuntimeValue(coinBonusValue);
      timeBonus.SetRuntimeValue(timeBonusValue);
      var scoreValue := coinBonusValue + timeBonusValue;
      score.SetRuntimeValue(scoreValue);
    }

    /** `OpenCellsWithoutRaisingEvents`: open every square. */
    method OpenCellsWithoutRaisingEvents()
      requires Valid()
      modifies cells.Values
      ensures cells.Values[..] == RevealAll(old(cells.Values[..]))
      ensures AllRevealed(cells.Values[..])
    {
      ghost var before := cells.Values[..];
      for i := 0 to cells.Values.Length
        invariant forall j :: 0 <= j < i ==> cells.Values[j] == OpenWithoutRaisingEvents(before[j])
        invariant forall j :: i <= j < cells.Values.Length ==> cells.Values[j] == before[j]
      {
        cells.Values[i] := OpenWithoutRaisingEvents(cells.Values[i]);
      }
      assert cells.Values[..] == RevealAll(before);
      RevealAllReveals(before);
    }

    /** `CanPay(cost)`: only in Play, and only with at least `cost` coins. */
    predicate CanPay(cost: IntGameVariable)
      reads this, coins, cost
    {
      state == Play && coins.runtimeValue >= cost.runtimeValue
    }

    /**
     * `GetMines(exceptOpened, exceptFlagRaised)`: the indices of the mines, in array
     * order, leaving out opened or flagged ones when asked to.
     */
    method GetMines(exceptOpened: bool, exceptFlagRaised: bool) returns (r: seq<int>)
      requires Valid()
      ensures forall t :: 0 <= t < |r| ==> 0 <= r[t] < cells.Values.Length
      ensures forall t, u :: 0 <= t < u < |r| ==> r[t] < r[u]
      ensures forall j :: 0 <= j < cells.Values.Length ==>
                (j in r <==> MineCandidate(cells.Values[j], exceptOpened, exceptFlagRaised))
    {
      r := [];
      for i := 0 to cells.Values.Length
        invariant forall t :: 0 <= t < |r| ==> 0 <= r[t] < i
        invariant forall t, u :: 0 <= t < u < |r| ==> r[t] < r[u]
        invariant forall j :: 0 <= j < i ==> (j in r <==> MineCandidate(cells.Values[j], exceptOpened, exceptFlagRaised))
      {
        var cell := cells.Values[i];
        if cell.state == Mine {
          if exceptOpened && cell.isOpened {
            continue;
          }
          if exceptFlagRaised && cell.flagged {
            continue;
          }
          r := r + [i];
        }
      }
    }

    /**
     * `OnMineDetectorButtonPressed`: when the player can pay and some closed,
     * unflagged mine exists, one of them (chosen at random) is flagged as a certain
     * mine and the cost is paid; otherwise nothing happens.
     */
    method OnMineDetectorButtonPressed()
      requires Valid()
      modifies cells.Values, coins
      ensures Valid()
      ensures !old(CanPay(mineDetectionCost))
              || (forall j :: 0 <= j < cells.Values.Length ==> !MineCandidate(old(cells.Values[j]), true, true)) ==>
                cells.Values[..] == old(cells.Values[..]) && coins.runtimeValue == old(coins.runtimeValue)
      ensures old(CanPay(mineDetectionCost))
              && (exists j :: 0 <= j < cells.Values.Length && MineCandidate(old(cells.Values[j]), true, true)) ==>
                (exists j :: 0 <= j < cells.Values.Length && MineCandidate(old(cells.Values[j]), true, true)
                   && cells.Values[..] == old(cells.Values[..])[j := MarkMine(old(cells.Values[j]))])
                && coins.runtimeValue == coins.Clamp(old(coins.runtimeValue) - mineDetectionCost.runtimeValue)
    {
      if !CanPay(mineDetectionCost) {
        return;
      }
      var mineCells := GetMines(true, true);
      if |mineCells| == 0 {
        return;
      }
      ghost var cs := Counters();
      assert cs[0] == coins && cs[2] == mineDetectionCost;
      var targetIndex :| 0 <= targetIndex < |mineCells|;
      var target := mineCells[targetIndex];
      cells.Values[target] := MarkMine(cells.Values[target]);
      var cost := mineDetectionCost.runtimeValue;
      coins.SetRuntimeValue(coins.runtimeValue - cost);
    }

    /**
     * `OnIncreasingLifeButtonPressed`: when the player can pay, one more life and
     * the cost paid; otherwise nothing happens.
     */
    method OnIncreasingLifeButtonPressed()
      requires Valid()
      modifies playerLife, coins
      ensures Valid()
      ensures !old(CanPay(increasingLifeCost)) ==>
                playerLife.runtimeValue == old(playerLife.runtimeValue) && coins.runtimeValue == old(coins.runtimeValue)
      ensures old(CanPay(increasingLifeCost)) ==>
                playerLife.runtimeValue == playerLife.Clamp(old(playerLife.runtimeValue) + 1)
                && coins.runtimeValue == coins.Clamp(old(coins.runtimeValue) - increasingLifeCost.runtimeValue)
    {
      if !CanPay(increasingLifeCost) {
        return;
      }
      ghost var cs := Counters();
      assert cs[0] == coins && cs[1] == playerLife && cs[3] == increasingLifeCost;
      playerLife.SetRuntimeValue(playerLife.runtimeValue + 1);
      var cost := increasingLifeCost.runtimeValue;
      coins.SetRuntimeValue(coins.runtimeValue - cost);
    }
  }

  /** A sequence none of whose elements satisfies `f` counts zero. */
  lemma {:induction false} CountZeroes<T>(s: seq<T>, f: T -> bool)
    requires forall x <- s :: !f(x)
    ensures Count(s, f) == 0
  {
    if s != [] {
      CountZeroes(s[..|s| - 1], f);
    }
  }
}
