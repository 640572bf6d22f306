/**
 * The Reversi engine (`Reversi.Reversi`): the board of `Cell`s, the two players'
 * colours and their "put a stone in the previous turn" flags, the black and white
 * stone tallies, and the turn cycle: put a stone, turn the sandwiched stones over,
 * switch turns, pass when there is no move, end the game when both players pass.
 * The enemy answers its turn by scheduling a click on the square that gains most.
 *
 * The pauses of the coroutines are left out: putting a stone and turning the
 * sandwiched stones over happen in one step. The `Player` objects are reduced to
 * their colour and their flag; the message text is left out.
 */
module Reversi {
  import Wrappers
  import opened Grid
  import opened Seqs
  import opened GameVariable
  import opened ReversiCell
  import opened ReversiRules

  /** The game states Reversi uses; `None` is the value before `Init`. */
  datatype GameState = None | Ready | Play | Clear | GameOver

  /**
   * The square `r` is the one `ChooseCell` picks: a square where a stone can be put,
   * gaining at least as much as any other, and the first such square in array order.
   */
  ghost predicate IsGreedyChoice(v: seq<Cell>, r: int) {
    0 <= r < |v| && CanBePutStone(v[r])
    && (forall j :: 0 <= j < |v| ==> v[j].stoneCount <= v[r].stoneCount)
    && (forall j :: 0 <= j < r ==> v[j].stoneCount < v[r].stoneCount)
  }

  /** At most one square is the greedy choice. */
  lemma GreedyChoiceUnique(v: seq<Cell>, r: int, r': int)
    requires IsGreedyChoice(v, r) && IsGreedyChoice(v, r')
    ensures r == r'
  {
    assert v[r].stoneCount <= v[r'].stoneCount && v[r'].stoneCount <= v[r].stoneCount;
  }

  /**
   * With the counts shown, the greedy choice is a legal move for the turn player and
   * no other legal move gains more.
   */
  lemma GreedyChoiceIsBestMove(s: Shape, v: seq<Cell>, r: int, turn: CellState, nonTurn: CellState)
    requires |v| == s.Count() && CountsShown(s, v, turn, nonTurn) && IsGreedyChoice(v, r)
    ensures s.columns > 0 && s.Contains(s.ToPosition(r))
    ensures CanPutStone(s, States(v), s.ToPosition(r), turn, nonTurn)
    ensures forall p :: s.Contains(p) ==>
              StoneCount(s, States(v), p, turn, nonTurn) <= StoneCount(s, States(v), s.ToPosition(r), turn, nonTurn)
  {
    ColumnsOfNonEmpty(s, r);
    var pr := s.ToPosition(r);
    assert v[s.Index(pr)].stoneCount == StoneCount(s, States(v), pr, turn, nonTurn);
  }

  /**
   * The part of the engine a turn switch changes: whose turn it is, both players'
   * `PutStoneInPreviousTurn` flags, the game state and the enemy's scheduled clicks.
   */
  datatype Turn = Turn(enemy: bool, playerPut: bool, enemyPut: bool, state: GameState, scheduled: seq<int>)
  {
    /** The flag of the enemy (`true`) or of the player (`false`). */
    function Put(side: bool): bool {
      if side then enemyPut else playerPut
    }

    /** The same turn state with one side's flag set to `value`. */
    function WithPut(side: bool, value: bool): (t: Turn)
      ensures t.Put(side) == value && t.Put(!side) == Put(!side)
      ensures t.enemy == enemy && t.state == state && t.scheduled == scheduled
    {
      if side then this.(enemyPut := value) else this.(playerPut := value)
    }
  }

  /**
   * On the enemy's turn its greedy choice on the squares `v` is queued behind the
   * clicks of `t` still pending; on the player's turn the pending clicks are kept.
   */
  ghost predicate Scheduled(v: seq<Cell>, t: Turn, t': Turn) {
    if t'.enemy then
      |t'.scheduled| == |t.scheduled| + 1 && t'.scheduled[..|t.scheduled|] == t.scheduled
      && IsGreedyChoice(v, t'.scheduled[|t.scheduled|])
    else t'.scheduled == t.scheduled
  }

  /**
   * A click on a square that shows a positive count: the turn player then has
   * exactly as many more stones as the square showed, and the opponent one fewer
   * than that.
   */
  lemma ClickGainsShownCount(s: Shape, v: seq<Cell>, k: int, turn: CellState, nonTurn: CellState)
    requires |v| == s.Count() && CountsShown(s, v, turn, nonTurn)
    requires 0 <= k < |v| && v[k].stoneCount > 0
    requires turn != Empty && nonTurn == Flipped(turn)
    ensures s.columns > 0
    ensures var r := AfterPutting(s, States(v), s.ToPosition(k), turn, nonTurn);
      Count(r, Is(turn)) == Count(States(v), Is(turn)) + v[k].stoneCount
      && Count(r, Is(nonTurn)) == Count(States(v), Is(nonTurn)) - (v[k].stoneCount - 1)
  {
    ColumnsOfNonEmpty(s, k);
    var p := s.ToPosition(k);
    assert v[s.Index(p)].stoneCount == StoneCount(s, States(v), p, turn, nonTurn);
    PuttingGainsStoneCount(s, States(v), p, turn, nonTurn);
  }

  class Reversi {
    const cells: Array2D<Cell>
    const playerColor: CellState
    const enemyColor: CellState
    const blackStonesInitialPositions: seq<Pos>
    const whiteStonesInitialPositions: seq<Pos>
    const blackStones: IntGameVariable
    const whiteStones: IntGameVariable

    var state: GameState
    var isEnemysTurn: bool
    /** `player.PutStoneInPreviousTurn` and `enemy.PutStoneInPreviousTurn`. */
    var playerPutStoneInPreviousTurn: bool
    var enemyPutStoneInPreviousTurn: bool
    var puttingOrTuneOverStones: bool
    /** The flat index of the square that last reported a click, if any. */
    var lastClickedCell: Wrappers.Option<int>
    /** Whether the cells' `PutStone` and `AcceptClick` handlers are registered. */
    var eventsRegistered: bool
    /**
     * The squares the enemy has scheduled clicks on (`Invoke("OnClicked", …)`), not yet
     * delivered, oldest first. Every `Invoke` stays pending on its own, and all share
     * one delay, so they arrive in the order they were issued.
     */
    var scheduledClicks: seq<int>

    /** The stone colour of the enemy (`true`) or of the player (`false`). */
    function ColorOf(enemy: bool): CellState {
      if enemy then enemyColor else playerColor
    }

    /** `GetTurnPlayer().StoneColor`. */
    function TurnColor(): CellState
      reads this
    {
      ColorOf(isEnemysTurn)
    }

    /** `GetNonTurnPlayer().StoneColor`. */
    function NonTurnColor(): CellState
      reads this
    {
      ColorOf(!isEnemysTurn)
    }

    /** The `PutStoneInPreviousTurn` flag of the enemy (`true`) or of the player (`false`). */
    function PutPrev(enemy: bool): bool
      reads this
    {
      if enemy then enemyPutStoneInPreviousTurn else playerPutStoneInPreviousTurn
    }

    /** The configuration holds and the remembered squares are on the board. */
    ghost predicate Valid()
      reads this, cells
    {
      Configured() && ClicksOnBoard()
    }

    /**
     * The configuration the engine relies on: the board allocated, two distinct
     * tallies with consistent limits, opposite colours for the two players and the
     * starting squares on the board.
     */
    ghost predicate Configured()
      reads cells
    {
      cells.Valid()
      && blackStones != whiteStones
      && blackStones.LimitsConsistent() && whiteStones.LimitsConsistent()
      && ColoursOpposite()
      && (forall p <- blackStonesInitialPositions :: cells.Dims().Contains(p))
      && (forall p <- whiteStonesInitialPositions :: cells.Dims().Contains(p))
    }

    /** The two players play stones of opposite colours. */
    predicate ColoursOpposite() {
      playerColor != Empty && enemyColor == Flipped(playerColor)
    }

    /** The remembered squares are on the board. */
    ghost predicate ClicksOnBoard()
      reads this, cells
    {
      cells.Values != null
      && (lastClickedCell.Some? ==> 0 <= lastClickedCell.value < cells.Values.Length)
      && (forall i :: 0 <= i < |scheduledClicks| ==> 0 <= scheduledClicks[i] < cells.Values.Length)
    }

    /** The stones on the board, square by square. */
    ghost function Board(): seq<CellState>
      requires cells.Valid()
      reads cells, cells.Values
    {
      States(cells.Values[..])
    }

    /** Valid, and every square shows what the turn player would gain there. */
    ghost predicate Consistent()
      reads this, cells, cells.Values
    {
      Valid() && ShowsCounts(isEnemysTurn)
    }

    /** Every square shows what the enemy (`true`) or the player (`false`) would gain there. */
    ghost predicate ShowsCounts(enemy: bool)
      reads cells, cells.Values
    {
      cells.Valid() && CountsShown(cells.Dims(), cells.Values[..], ColorOf(enemy), ColorOf(!enemy))
    }

    /** The current turn state. */
    function TurnState(): Turn
      reads this
    {
      Turn(isEnemysTurn, playerPutStoneInPreviousTurn, enemyPutStoneInPreviousTurn, state, scheduledClicks)
    }

    /** The enemy (`true`) or the player (`false`) has a move on the board `b`. */
    ghost predicate Moves(b: seq<CellState>, enemy: bool)
      requires |b| == cells.Dims().Count()
    {
      AnyMove(cells.Dims(), b, ColorOf(enemy), ColorOf(!enemy))
    }

    /**
     * The turn of `t.enemy` begins on the board `b` (`OnTurnSwitched`), taking the
     * turn state from `t` to `t'`; `v` are the squares afterwards and `outcome` the
     * state a finished game takes. With a move, the turn is played (the enemy's
     * greedy click scheduled). Without one, the game ends if the other side did not
     * put a stone in its last turn; otherwise the side clears its flag and passes,
     * and the other side plays, or the game ends if it has no move either.
     */
    ghost predicate Began(b: seq<CellState>, v: seq<Cell>, t: Turn, t': Turn, outcome: GameState)
      requires |b| == cells.Dims().Count()
    {
      var e := t.enemy;
      if Moves(b, e) then
        t'.enemy == e && t'.state == t.state && t'.playerPut == t.playerPut && t'.enemyPut == t.enemyPut
        && Scheduled(v, t, t')
      else if !t.Put(!e) then
        t' == t.(state := outcome)
      else if Moves(b, !e) then
        t'.enemy == !e && t'.state == t.state && !t'.Put(e) && t'.Put(!e) && Scheduled(v, t, t')
      else
        t' == t.WithPut(e, false).(enemy := !e, state := outcome)
    }

    /**
     * Once a side that has just put a stone hands the turn over, the game goes on
     * exactly when one of the two sides can move, and then with a side that can;
     * otherwise it ends in `outcome`.
     */
    lemma BeganAfterPut(b: seq<CellState>, v: seq<Cell>, t: Turn, t': Turn, outcome: GameState)
      requires |b| == cells.Dims().Count() && Began(b, v, t, t', outcome)
      requires t.Put(!t.enemy) && outcome != t.state
      ensures t'.state == t.state <==> Moves(b, t.enemy) || Moves(b, !t.enemy)
      ensures t'.state == t.state ==> Moves(b, t'.enemy)
      ensures t'.state != t.state ==> t'.state == outcome
    {
    }

    /** The position of the square that last reported a click. */
    ghost function ClickedPosition(): (p: Pos)
      requires Valid() && lastClickedCell.Some?
      reads this, cells
      ensures cells.Dims().Contains(p) && cells.Dims().Index(p) == lastClickedCell.value
    {
      ColumnsOfNonEmpty(cells.Dims(), lastClickedCell.value);
      cells.Dims().ToPosition(lastClickedCell.value)
    }

    /** The tally of stones of colour `c`. */
    function Tally(c: CellState): int
      reads blackStones, whiteStones
    {
      if c == Black then blackStones.runtimeValue else whiteStones.runtimeValue
    }

    /** `PlayerHasWon`: the player has strictly more stones than the enemy; a tie is lost. */
    function PlayerHasWon(): (won: bool)
      requires ColoursOpposite()
      reads blackStones, whiteStones
      ensures won <==> Tally(playerColor) > Tally(enemyColor)
    {
      var playersStones := if playerColor == Black then blackStones.runtimeValue else whiteStones.runtimeValue;
      var enemysStones := if playerColor == Black then whiteStones.runtimeValue else blackStones.runtimeValue;
      playersStones > enemysStones
    }

    /** The state the game ends in: Clear when the player has won, GameOver otherwise. */
    function Outcome(): GameState
      requires ColoursOpposite()
      reads blackStones, whiteStones
    {
      if PlayerHasWon() then Clear else GameOver
    }

    /**
     * Wires the serialized configuration only, as the engine does before `Start`.
     * The game is usable once `Init` has run: `Init` establishes `Valid()`.
     */
    constructor (cells: Array2D<Cell>, playerColor: CellState, enemyColor: CellState,
                 blackStonesInitialPositions: seq<Pos>, whiteStonesInitialPositions: seq<Pos>,
                 blackStones: IntGameVariable, whiteStones: IntGameVariable)
      ensures this.cells == cells && this.playerColor == playerColor && this.enemyColor == enemyColor
      ensures this.blackStonesInitialPositions == blackStonesInitialPositions
      ensures this.whiteStonesInitialPositions == whiteStonesInitialPositions
      ensures this.blackStones == blackStones && this.whiteStones == whiteStones
      ensures state == GameState.None && !isEnemysTurn && !puttingOrTuneOverStones && !eventsRegistered
      ensures !playerPutStoneInPreviousTurn && !enemyPutStoneInPreviousTurn
      ensures lastClickedCell == Wrappers.None && scheduledClicks == []
    {
      this.cells := cells;
      this.playerColor, this.enemyColor := playerColor, enemyColor;
      this.blackStonesInitialPositions := blackStonesInitialPositions;
      this.whiteStonesInitialPositions := whiteStonesInitialPositions;
      this.blackStones, this.whiteStones := blackStones, whiteStones;
      state := GameState.None;
      isEnemysTurn := false;
      playerPutStoneInPreviousTurn, enemyPutStoneInPreviousTurn := false, false;
      puttingOrTuneOverStones := false;
      lastClickedCell := Wrappers.None;
      eventsRegistered := false;
      scheduledClicks := [];
    }

    /** `Init`: register the cell handlers, then enter Ready. */
    method Init()
      requires Valid()
      modifies this, cells, cells.Values, blackStones, whiteStones
      ensures Consistent() && state == Ready && eventsRegistered
      ensures cells.Values == old(cells.Values)
      ensures Board() == WithInitialStones(cells.Dims(), seq(cells.Values.Length, _ => Empty),
                                           blackStonesInitialPositions, whiteStonesInitialPositions)
      ensures blackStones.runtimeValue == blackStones.Clamp(Count(Board(), Is(Black)))
      ensures whiteStones.runtimeValue == whiteStones.Clamp(Count(Board(), Is(White)))
      ensures isEnemysTurn == old(isEnemysTurn)
      ensures playerPutStoneInPreviousTurn == old(playerPutStoneInPreviousTurn)
      ensures enemyPutStoneInPreviousTurn == old(enemyPutStoneInPreviousTurn)
      ensures puttingOrTuneOverStones == old(puttingOrTuneOverStones)
      ensures lastClickedCell == old(lastClickedCell) && scheduledClicks == old(scheduledClicks)
    {
      eventsRegistered := true;
      EnterReady();
    }

    /**
     * Entering Ready: the state is set and `OnGameStateSet` sets the board up.
     * Whose turn it is, the pass flags and a pending enemy click are all kept from
     * before.
     */
    method EnterReady()
      requires Valid()
      modifies this, cells, cells.Values, blackStones, whiteStones
      ensures Consistent() && state == Ready
      ensures cells.Values == old(cells.Values)
      ensures Board() == WithInitialStones(cells.Dims(), seq(cells.Values.Length, _ => Empty),
                                           blackStonesInitialPositions, whiteStonesInitialPositions)
      ensures blackStones.runtimeValue == blackStones.Clamp(Count(Board(), Is(Black)))
      ensures whiteStones.runtimeValue == whiteStones.Clamp(Count(Board(), Is(White)))
      ensures isEnemysTurn == old(isEnemysTurn) && eventsRegistered == old(eventsRegistered)
      ensures playerPutStoneInPreviousTurn == old(playerPutStoneInPreviousTurn)
      ensures enemyPutStoneInPreviousTurn == old(enemyPutStoneInPreviousTurn)
      ensures puttingOrTuneOverStones == old(puttingOrTuneOverStones)
      ensures lastClickedCell == old(lastClickedCell) && scheduledClicks == old(scheduledClicks)
    {
      state := Ready;
      SetUpBoard();
    }

    /**
     * The Ready case of `OnGameStateSet`: the board emptied, the starting stones put,
     * the tallies reset and then recounted, every square's count written for the
     * turn player.
     */
    method SetUpBoard()
      requires Valid()
      modifies cells, cells.Values, blackStones, whiteStones
      ensures Consistent()
      ensures cells.Values == old(cells.Values)
      ensures Board() == WithInitialStones(cells.Dims(), seq(cells.Values.Length, _ => Empty),
                                           blackStonesInitialPositions, whiteStonesInitialPositions)
      ensures blackStones.runtimeValue == blackStones.Clamp(Count(Board(), Is(Black)))
      ensures whiteStones.runtimeValue == whiteStones.Clamp(Count(Board(), Is(White)))
    {
      cells.Init(ReversiCell.Init);
      assert Board() == seq(cells.Values.Length, _ => Empty);
      PutInitialStones();
      InitGameVariables();
      UpdateCells();
      UpdateStoneCounts();
    }

    /** `PutInitialStones`: the black starting squares, then the white ones (which win a clash). */
    method PutInitialStones()
      requires Valid()
      modifies cells.Values
      ensures Board() == WithInitialStones(cells.Dims(), old(Board()),
                                           blackStonesInitialPositions, whiteStonesInitialPositions)
      ensures StoneCounts(cells.Values[..]) == StoneCounts(old(cells.Values[..]))
    {
      var s := cells.Dims();
      var blacks, whites := blackStonesInitialPositions, whiteStonesInitialPositions;
      ghost var b0 := Board();
      for i := 0 to |blacks|
        invariant StoneCounts(cells.Values[..]) == StoneCounts(old(cells.Values[..]))
        invariant forall j :: 0 <= j < cells.Values.Length ==>
                    cells.Values[j].state == if j in IndicesOf(s, blacks[..i]) then Black else b0[j]
      {
        IndicesOfStep(s, blacks, i);
        var k := s.Index(blacks[i]);
        cells.Values[k] := cells.Values[k].(state := Black);
      }
      assert blacks[..|blacks|] == blacks;
      ghost var b1 := Board();
      for i := 0 to |whites|
        invariant StoneCounts(cells.Values[..]) == StoneCounts(old(cells.Values[..]))
        invariant forall j :: 0 <= j < cells.Values.Length ==>
                    cells.Values[j].state == if j in IndicesOf(s, whites[..i]) then White else b1[j]
      {
        IndicesOfStep(s, whites, i);
        var k := s.Index(whites[i]);
        cells.Values[k] := cells.Values[k].(state := White);
      }
      assert whites[..|whites|] == whites;
    }

    /** `InitGameVariables`: both tallies back to their initial values. */
    method InitGameVariables()
      requires Valid()
      modifies blackStones, whiteStones
      ensures blackStones.runtimeValue == blackStones.Clamp(blackStones.initialValue)
      ensures whiteStones.runtimeValue == whiteStones.Clamp(whiteStones.initialValue)
    {
      blackStones.Init();
      whiteStones.Init();
    }

    /** `UpdateCells`: every square gets the count of the current turn; no stone moves. */
    method UpdateCells()
      requires Valid()
      modifies cells.Values
      ensures Consistent()
      ensures Board() == old(Board())
    {
      var s := cells.Dims();
      ghost var b := Board();
      for k := 0 to cells.Values.Length
        invariant Board() == b
        invariant forall p :: s.Contains(p) && s.Index(p) < k ==>
                    cells.Values[s.Index(p)].stoneCount == StoneCount(s, b, p, TurnColor(), NonTurnColor())
      {
        ColumnsOfNonEmpty(s, k);
        var p := s.ToPosition(k);
        UpdateStoneCount(p);
        assert Board() == b;
        forall q | s.Contains(q) && s.Index(q) == k
          ensures q == p
        {
          if q != p {
            IndexInjective(s, q, p);
          }
        }
      }
    }

    /**
     * `UpdateStoneCount(cell)`: the square's count becomes 0 where no stone can be
     * put, and otherwise 1 plus the length of every sandwiched opponent run around
     * it, the `StoneCount` of the board.
     */
    method UpdateStoneCount(p: Pos)
      requires Valid() && cells.Dims().Contains(p)
      modifies cells.Values
      ensures cells.Values[..] == old(cells.Values[..])[cells.Dims().Index(p) :=
                old(cells.Values[cells.Dims().Index(p)]).(stoneCount :=
                  StoneCount(cells.Dims(), old(Board()), p, TurnColor(), NonTurnColor()))]
    {
      var k := cells.Dims().Index(p);
      var canPut := CanPutStone(p);
      if !canPut {
        assert StoneCount(cells.Dims(), Board(), p, TurnColor(), NonTurnColor()) == 0;
        cells.Values[k] := cells.Values[k].(stoneCount := 0);
        return;
      }
      var count := CountStonesGained(p);
      assert count == StoneCount(cells.Dims(), Board(), p, TurnColor(), NonTurnColor());
      cells.Values[k] := cells.Values[k].(stoneCount := count);
    }

    /**
     * The count loop of `UpdateStoneCount` on a square that can take a stone: the
     * square itself plus, for every adjacent opponent stone whose run ends at a stone
     * of the turn player, the length of that run.
     */
    method CountStonesGained(p: Pos) returns (count: int)
      requires Valid() && cells.Dims().Contains(p)
      ensures count == 1 + Gains(cells.Dims(), Board(), p, StonesAround(cells.Dims(), Board(), p, NonTurnColor()),
                                 TurnColor(), NonTurnColor())
    {
      var s := cells.Dims();
      var b := States(cells.Values[..]);
      count := 1;
      var stones := StonesAround(s, b, p, NonTurnColor());
      for i := 0 to |stones|
        invariant count == 1 + Gains(s, b, p, stones[..i], TurnColor(), NonTurnColor())
      {
        var stone := stones[i];
        var direction := stone.Minus(p);
        GainsStep(s, b, p, stones, i, TurnColor(), NonTurnColor());
        if ExsistsTurnPlyersStone(s, b, stone, direction, TurnColor(), NonTurnColor()) {
          count := count + CountStonesCanBeTurnedOver(s, b, stone, direction, NonTurnColor(), 0);
        }
      }
      assert stones[..|stones|] == stones;
    }

    /**
     * `CanPutStone(cell)`: the square is empty and some adjacent opponent stone starts
     * a run that ends at a stone of the turn player.
     */
    method CanPutStone(p: Pos) returns (result: bool)
      requires Valid() && cells.Dims().Contains(p)
      ensures result == ReversiRules.CanPutStone(cells.Dims(), Board(), p, TurnColor(), NonTurnColor())
    {
      var s := cells.Dims();
      var b := States(cells.Values[..]);
      var turn, nonTurn := TurnColor(), NonTurnColor();
      if b[s.Index(p)] != Empty {
        return false;
      }
      result := false;
      var stones := StonesAround(s, b, p, nonTurn);
      for i := 0 to |stones|
        invariant result <==>
                    exists t :: 0 <= t < i && ExsistsTurnPlyersStone(s, b, stones[t], stones[t].Minus(p), turn, nonTurn)
      {
        var stone := stones[i];
        var direction := stone.Minus(p);
        AnySandwichStep(s, b, p, stones, i, turn, nonTurn);
        if ExsistsTurnPlyersStone(s, b, stone, direction, turn, nonTurn) {
          result := true;
        }
      }
    }

    /**
     * `TurnOverStones(cell, direction)`: turn the stone on `c` over and go on while
     * the next square holds an opponent stone; no count changes.
     */
    method TurnOverStones(c: Pos, d: Pos)
      requires Valid() && IsDirection(d) && cells.Dims().Contains(c)
      modifies cells.Values
      decreases Room(cells.Dims(), c, d)
      ensures Board() == ReversiRules.TurnOverStones(cells.Dims(), old(Board()), c, d, NonTurnColor())
      ensures StoneCounts(cells.Values[..]) == StoneCounts(old(cells.Values[..]))
    {
      var s := cells.Dims();
      var k := s.Index(c);
      ghost var b0 := Board();
      cells.Values[k] := TurnOver(cells.Values[k]);
      assert Board() == b0[k := Flipped(b0[k])];
      var next := c.Plus(d);
      var nextCell := GetValue(s, cells.Values[..], next.x, next.y);
      if nextCell.Some? && nextCell.value.state == NonTurnColor() {
        TurnOverStones(next, d);
      }
    }

    /**
     * `TurnOverSandwichedStones`: for each opponent stone around `p`, in neighbour
     * order, turn its run over when it ends at a stone of the turn player on the
     * board as it stands.
     */
    method TurnOverSandwichedStones(p: Pos)
      requires Valid() && cells.Dims().Contains(p)
      modifies cells.Values
      ensures Board() == ReversiRules.TurnOverSandwichedStones(cells.Dims(), old(Board()), p,
                           StonesAround(cells.Dims(), old(Board()), p, NonTurnColor()), TurnColor(), NonTurnColor())
      ensures StoneCounts(cells.Values[..]) == StoneCounts(old(cells.Values[..]))
    {
      var s := cells.Dims();
      ghost var b0 := Board();
      var stones := StonesAround(s, States(cells.Values[..]), p, NonTurnColor());
      for i := 0 to |stones|
        invariant Board() == ReversiRules.TurnOverSandwichedStones(s, b0, p, stones[..i], TurnColor(), NonTurnColor())
        invariant StoneCounts(cells.Values[..]) == StoneCounts(old(cells.Values[..]))
      {
        var stone := stones[i];
        var direction := stone.Minus(p);
        SandwichStep(s, b0, p, stones, i, TurnColor(), NonTurnColor());
        ghost var r0 := Board();
        if ExsistsTurnPlyersStone(s, States(cells.Values[..]), stone, direction, TurnColor(), NonTurnColor()) {
          TurnOverStones(stone, direction);
          assert Board() == ReversiRules.TurnOverStones(s, r0, stone, direction, NonTurnColor());
        }
      }
      assert stones[..|stones|] == stones;
    }

    /** `UpdateStoneCounts`: each tally is assigned the number of stones of its colour. */
    method UpdateStoneCounts()
      requires Valid()
      modifies blackStones, whiteStones
      ensures blackStones.runtimeValue == blackStones.Clamp(Count(Board(), Is(Black)))
      ensures whiteStones.runtimeValue == whiteStones.Clamp(Count(Board(), Is(White)))
    {
      var values := States(cells.Values[..]);
      blackStones.SetRuntimeValue(Count(values, Is(Black)));
      whiteStones.SetRuntimeValue(Count(values, Is(White)));
    }

    /** `CountPuttableCells`: how many squares show a positive count. */
    method CountPuttableCells() returns (count: int)
      requires Valid()
      ensures count == Count(cells.Values[..], CanBePutStone)
    {
      count := 0;
      var values := cells.Values;
      for i := 0 to values.Length
        invariant count == Count(values[..i], CanBePutStone)
      {
        assert values[..i + 1][..i] == values[..i];
        if CanBePutStone(values[i]) {
          count := count + 1;
        }
      }
      assert values[..values.Length] == values[..];
    }

    /**
     * `ChooseCell`: collect the squares that can take a stone, start from the first
     * one and take over every later square that gains strictly more.
     */
    method ChooseCell() returns (r: int)
      requires Valid()
      requires exists j :: 0 <= j < cells.Values.Length && CanBePutStone(cells.Values[j])
      ensures IsGreedyChoice(cells.Values[..], r)
    {
      var values := cells.Values;
      var cellList: seq<int> := [];
      for i := 0 to values.Length
        invariant forall t :: 0 <= t < |cellList| ==> 0 <= cellList[t] < i && CanBePutStone(values[cellList[t]])
        invariant forall t, u :: 0 <= t < u < |cellList| ==> cellList[t] < cellList[u]
        invariant forall j :: 0 <= j < i && CanBePutStone(values[j]) ==> j in cellList
        invariant cellList == [] ==> forall j :: 0 <= j < i ==> !CanBePutStone(values[j])
        invariant cellList != [] ==> forall j :: 0 <= j < cellList[0] ==> !CanBePutStone(values[j])
      {
        if CanBePutStone(values[i]) {
          cellList := cellList + [i];
        }
      }
      var maxStoneCountCell := cellList[0];
      for i := 0 to values.Length
        invariant 0 <= maxStoneCountCell < values.Length && CanBePutStone(values[maxStoneCountCell])
        invariant forall j :: 0 <= j < i ==> values[j].stoneCount <= values[maxStoneCountCell].stoneCount
        invariant forall j :: 0 <= j < maxStoneCountCell ==> values[j].stoneCount < values[maxStoneCountCell].stoneCount
      {
        if values[i].stoneCount > values[maxStoneCountCell].stoneCount {
          maxStoneCountCell := i;
        }
      }
      r := maxStoneCountCell;
    }

    /** Set the `PutStoneInPreviousTurn` flag of the enemy (`true`) or of the player (`false`). */
    method SetPutPrev(enemy: bool, value: bool)
      modifies this
      ensures TurnState() == old(TurnState()).WithPut(enemy, value)
      ensures puttingOrTuneOverStones == old(puttingOrTuneOverStones) && eventsRegistered == old(eventsRegistered)
      ensures lastClickedCell == old(lastClickedCell) && scheduledClicks == old(scheduledClicks)
    {
      if enemy {
        enemyPutStoneInPreviousTurn := value;
      } else {
        playerPutStoneInPreviousTurn := value;
      }
    }

    /**
     * `SwitchTurn`: the other side's turn begins (`OnTurnSwitched` through the
     * `IsEnemysTurn` setter); no stone moves.
     */
    method SwitchTurn()
      requires Valid()
      modifies this, cells.Values
      decreases if PutPrev(isEnemysTurn) then 1 else 0, 2
      ensures Consistent() && Board() == old(Board())
      ensures puttingOrTuneOverStones == old(puttingOrTuneOverStones) && eventsRegistered == old(eventsRegistered)
      ensures lastClickedCell == old(lastClickedCell)
      ensures Began(Board(), cells.Values[..], old(TurnState()).(enemy := !old(isEnemysTurn)), TurnState(), Outcome())
    {
      isEnemysTurn := !isEnemysTurn;
      OnTurnSwitched();
    }

    /**
     * `OnTurnSwitched`: recount every square for the side whose turn it is, then
     * play, pass or end the game as `Began` says; no stone moves.
     */
    method OnTurnSwitched()
      requires Valid()
      modifies this, cells.Values
      decreases if PutPrev(!isEnemysTurn) then 1 else 0, 1
      ensures Consistent() && Board() == old(Board())
      ensures puttingOrTuneOverStones == old(puttingOrTuneOverStones) && eventsRegistered == old(eventsRegistered)
      ensures lastClickedCell == old(lastClickedCell)
      ensures Began(Board(), cells.Values[..], old(TurnState()), TurnState(), Outcome())
    {
      UpdateCells();
      var puttableCells := CountPuttableCells();
      PuttableCountIsAnyMove(cells.Dims(), cells.Values[..], TurnColor(), NonTurnColor());
      if puttableCells > 0 {
        PlayTurn();
      } else {
        NoMove();
      }
    }

    /** The side whose turn it is has a move: the enemy schedules its greedy click, the player waits. */
    method PlayTurn()
      requires Consistent() && Moves(Board(), isEnemysTurn)
      modifies this
      ensures Consistent()
      ensures puttingOrTuneOverStones == old(puttingOrTuneOverStones) && eventsRegistered == old(eventsRegistered)
      ensures lastClickedCell == old(lastClickedCell)
      ensures Began(Board(), cells.Values[..], old(TurnState()), TurnState(), Outcome())
    {
      if isEnemysTurn {
        PuttableCountIsAnyMove(cells.Dims(), cells.Values[..], TurnColor(), NonTurnColor());
        CountPositive(cells.Values[..], CanBePutStone);
        var toBePut := ChooseCell();
        scheduledClicks := scheduledClicks + [toBePut];
      }
      assert Moves(Board(), old(TurnState()).enemy);
      assert Scheduled(cells.Values[..], old(TurnState()), TurnState());
    }

    /**
     * The side whose turn it is has no move: the game ends if the other side did not
     * put a stone in its last turn; otherwise the side clears its flag and passes.
     */
    method NoMove()
      requires Consistent() && !Moves(Board(), isEnemysTurn)
      modifies this, cells.Values
      decreases if PutPrev(!isEnemysTurn) then 1 else 0, 0
      ensures Consistent() && Board() == old(Board())
      ensures puttingOrTuneOverStones == old(puttingOrTuneOverStones) && eventsRegistered == old(eventsRegistered)
      ensures lastClickedCell == old(lastClickedCell)
      ensures Began(Board(), cells.Values[..], old(TurnState()), TurnState(), Outcome())
    {
      if !PutPrev(!isEnemysTurn) {
        EndGame();
      } else {
        SetPutPrev(isEnemysTurn, false);
        SwitchTurn();
      }
    }

    /** The game ends: Clear when the player has won (`PlayerHasWon`), GameOver otherwise. */
    method EndGame()
      requires Valid()
      modifies this
      ensures TurnState() == old(TurnState()).(state := Outcome())
      ensures puttingOrTuneOverStones == old(puttingOrTuneOverStones) && eventsRegistered == old(eventsRegistered)
      ensures lastClickedCell == old(lastClickedCell)
    {
      if PlayerHasWon() {
        state := Clear;
      } else {
        state := GameOver;
      }
    }

    /**
     * `OnStonePut` (with its coroutine run to the end): ignored while a placement is
     * under way; otherwise the turn player's stone goes on the clicked square, the
     * sandwiched stones are turned over, the tallies are recounted, the turn player's
     * flag is set and the turn switches.
     */
    method OnStonePut()
      requires Consistent() && lastClickedCell.Some?
      modifies this, cells.Values, blackStones, whiteStones
      ensures Consistent()
      ensures old(puttingOrTuneOverStones) ==>
                unchanged(this) && unchanged(cells.Values) && unchanged(blackStones, whiteStones)
      ensures !old(puttingOrTuneOverStones) ==>
                Board() == AfterPutting(cells.Dims(), old(Board()), old(ClickedPosition()), old(TurnColor()), old(NonTurnColor()))
                && blackStones.runtimeValue == blackStones.Clamp(Count(Board(), Is(Black)))
                && whiteStones.runtimeValue == whiteStones.Clamp(Count(Board(), Is(White)))
                && !puttingOrTuneOverStones && lastClickedCell == old(lastClickedCell)
                && Began(Board(), cells.Values[..],
                         old(TurnState()).WithPut(old(isEnemysTurn), true).(enemy := !old(isEnemysTurn)),
                         TurnState(), Outcome())
    {
      if puttingOrTuneOverStones {
        return;
      }
      OnStonePutCoroutine();
    }

    /**
     * `OnStonePutCoroutine`: the stone put and the sandwiches turned, the tallies
     * recounted, the turn player's flag set and the turn switched, all while busy.
     */
    method OnStonePutCoroutine()
      requires Valid() && lastClickedCell.Some?
      modifies this, cells.Values, blackStones, whiteStones
      ensures Consistent()
      ensures Board() == AfterPutting(cells.Dims(), old(Board()), old(ClickedPosition()), old(TurnColor()), old(NonTurnColor()))
      ensures blackStones.runtimeValue == blackStones.Clamp(Count(Board(), Is(Black)))
      ensures whiteStones.runtimeValue == whiteStones.Clamp(Count(Board(), Is(White)))
      ensures !puttingOrTuneOverStones && lastClickedCell == old(lastClickedCell)
      ensures Began(Board(), cells.Values[..],
                    old(TurnState()).WithPut(old(isEnemysTurn), true).(enemy := !old(isEnemysTurn)),
                    TurnState(), Outcome())
    {
      puttingOrTuneOverStones := true;
      PutStone();
      assert TurnState() == old(TurnState()) && isEnemysTurn == old(isEnemysTurn);
      HandTurnOver();
    }

    /**
     * The end of `OnStonePutCoroutine`: the turn player's flag set, the turn switched
     * and the placement finished; no stone moves.
     */
    method HandTurnOver()
      requires Valid()
      modifies this, cells.Values
      ensures Consistent() && Board() == old(Board())
      ensures !puttingOrTuneOverStones && lastClickedCell == old(lastClickedCell)
      ensures Began(Board(), cells.Values[..],
                    old(TurnState()).WithPut(old(isEnemysTurn), true).(enemy := !old(isEnemysTurn)),
                    TurnState(), Outcome())
    {
      ghost var handedOver := TurnState().WithPut(isEnemysTurn, true).(enemy := !isEnemysTurn);
      SetPutPrev(isEnemysTurn, true);
      assert TurnState().(enemy := !isEnemysTurn) == handedOver;
      SwitchTurn();
      ghost var switched := TurnState();
      puttingOrTuneOverStones := false;
      assert TurnState() == switched;
    }

    /**
     * The body of `OnStonePutCoroutine` up to the turn switch: the turn player's stone
     * on the clicked square, the sandwiched stones turned over, the tallies recounted.
     */
    method PutStone()
      requires Valid() && lastClickedCell.Some?
      modifies cells.Values, blackStones, whiteStones
      ensures Board() == AfterPutting(cells.Dims(), old(Board()), ClickedPosition(), TurnColor(), NonTurnColor())
      ensures blackStones.runtimeValue == blackStones.Clamp(Count(Board(), Is(Black)))
      ensures whiteStones.runtimeValue == whiteStones.Clamp(Count(Board(), Is(White)))
    {
      ghost var b0 := Board();
      ghost var p0 := ClickedPosition();
      var s := cells.Dims();
      var k := lastClickedCell.value;
      ColumnsOfNonEmpty(s, k);
      var p := s.ToPosition(k);
      cells.Values[k] := cells.Values[k].(state := TurnColor());
      assert Board() == b0[s.Index(p0) := TurnColor()];
      TurnOverSandwichedStones(p);
      UpdateStoneCounts();
    }

    /**
     * A click on square `k` (`Cell.OnClicked`, then the `PutStone` and `onStonePut`
     * handlers): reported only with the handlers registered, in Play and where the
     * square shows a positive count. A reported click puts a stone there, and the
     * turn player then has exactly as many more stones as the square showed, the
     * opponent one fewer than that.
     */
    method OnCellClicked(k: int)
      requires Consistent() && 0 <= k < cells.Values.Length
      modifies this, cells.Values, blackStones, whiteStones
      ensures Consistent()
      ensures !OnClicked(old(cells.Values[k]), old(eventsRegistered), old(state) == Play) ==>
                unchanged(this) && unchanged(cells.Values) && unchanged(blackStones, whiteStones)
      ensures OnClicked(old(cells.Values[k]), old(eventsRegistered), old(state) == Play) ==>
                lastClickedCell == Wrappers.Some(k)
      ensures OnClicked(old(cells.Values[k]), old(eventsRegistered), old(state) == Play) && !old(puttingOrTuneOverStones) ==>
                Count(Board(), Is(old(TurnColor()))) == Count(old(Board()), Is(old(TurnColor()))) + old(cells.Values[k].stoneCount)
                && Count(Board(), Is(old(NonTurnColor()))) == Count(old(Board()), Is(old(NonTurnColor()))) - (old(cells.Values[k].stoneCount) - 1)
                && Began(Board(), cells.Values[..],
                         old(TurnState()).WithPut(old(isEnemysTurn), true).(enemy := !old(isEnemysTurn)),
                         TurnState(), Outcome())
    {
      var reported := OnClicked(cells.Values[k], eventsRegistered, state == Play);
      if reported {
        ClickGainsShownCount(cells.Dims(), cells.Values[..], k, TurnColor(), NonTurnColor());
        PutClickedStone(k);
      }
    }

    /** The reported click on square `k` is put through `onStonePut`. */
    method PutClickedStone(k: int)
      requires Consistent() && 0 <= k < cells.Values.Length
      modifies this, cells.Values, blackStones, whiteStones
      ensures Consistent() && lastClickedCell == Wrappers.Some(k)
      ensures old(puttingOrTuneOverStones) ==> unchanged(cells.Values)
      ensures !old(puttingOrTuneOverStones) ==>
                cells.Dims().columns > 0
                && Board() == AfterPutting(cells.Dims(), old(Board()), cells.Dims().ToPosition(k), old(TurnColor()), old(NonTurnColor()))
                && Began(Board(), cells.Values[..],
                         old(TurnState()).WithPut(old(isEnemysTurn), true).(enemy := !old(isEnemysTurn)),
                         TurnState(), Outcome())
    {
      lastClickedCell := Wrappers.Some(k);
      assert ClickedPosition() == cells.Dims().ToPosition(k);
      assert TurnState() == old(TurnState()) && isEnemysTurn == old(isEnemysTurn);
      OnStonePut();
    }

    /**
     * The oldest of the enemy's scheduled clicks arrives: it leaves the queue and is
     * handled like any click on that square.
     */
    method OnScheduledClick()
      requires Consistent() && |scheduledClicks| > 0
      modifies this, cells.Values, blackStones, whiteStones
      ensures Consistent()
      ensures OnClicked(old(cells.Values[scheduledClicks[0]]), old(eventsRegistered), old(state) == Play) ==>
                lastClickedCell == Wrappers.Some(old(scheduledClicks[0]))
      ensures !OnClicked(old(cells.Values[scheduledClicks[0]]), old(eventsRegistered), old(state) == Play) ==>
                scheduledClicks == old(scheduledClicks[1..]) && lastClickedCell == old(lastClickedCell) && unchanged(cells.Values)
    {
      var k := scheduledClicks[0];
      scheduledClicks := scheduledClicks[1..];
      OnCellClicked(k);
    }

    /** `OnGameStartButtonPressed`: the game enters Play; nothing else changes. */
    method OnGameStartButtonPressed()
      requires Consistent()
      modifies this
      ensures Consistent() && state == Play
      ensures isEnemysTurn == old(isEnemysTurn) && scheduledClicks == old(scheduledClicks)
      ensures eventsRegistered == old(eventsRegistered) && puttingOrTuneOverStones == old(puttingOrTuneOverStones)
      ensures playerPutStoneInPreviousTurn == old(playerPutStoneInPreviousTurn)
      ensures enemyPutStoneInPreviousTurn == old(enemyPutStoneInPreviousTurn)
      ensures lastClickedCell == old(lastClickedCell)
    {
      state := Play;
    }

    /** `OnRestartButtonPressed`: the game enters Ready again. */
    method OnRestartButtonPressed()
      requires Valid()
      modifies this, cells, cells.Values, blackStones, whiteStones
      ensures Consistent() && state == Ready
      ensures cells.Values == old(cells.Values)
      ensures Board() == WithInitialStones(cells.Dims(), seq(cells.Values.Length, _ => Empty),
                                           blackStonesInitialPositions, whiteStonesInitialPositions)
      ensures blackStones.runtimeValue == blackStones.Clamp(Count(Board(), Is(Black)))
      ensures whiteStones.runtimeValue == whiteStones.Clamp(Count(Board(), Is(White)))
      ensures isEnemysTurn == old(isEnemysTurn) && eventsRegistered == old(eventsRegistered)
      ensures playerPutStoneInPreviousTurn == old(playerPutStoneInPreviousTurn)
      ensures enemyPutStoneInPreviousTurn == old(enemyPutStoneInPreviousTurn)
      ensures puttingOrTuneOverStones == old(puttingOrTuneOverStones)
      ensures lastClickedCell == old(lastClickedCell) && scheduledClicks == old(scheduledClicks)
    {
      EnterReady();
    }
  }
}
