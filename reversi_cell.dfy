/**
 * A square of the Reversi board (`Reversi.Cell`): the stone on it, if any, and
 * `StoneCount`, the number of stones the turn player would gain by putting a stone
 * there (0 where no stone can be put).
 */
module ReversiCell {

  datatype CellState = Empty | Black | White

  datatype Cell = Cell(state: CellState, stoneCount: int)

  /** The colour a stone shows after turning over; an empty square stays empty. */
  function Flipped(st: CellState): (r: CellState)
    ensures st == Empty <==> r == Empty
    ensures st != Empty ==> r != st
  {
    match st
    case Empty => Empty
    case Black => White
    case White => Black
  }

  /** `Init`: the square is emptied; its stone count is left as it was. */
  function Init(c: Cell): (r: Cell)
    ensures r.state == Empty && r.stoneCount == c.stoneCount
  {
    c.(state := Empty)
  }

  /** `TurnOver`: a stone changes colour, an empty square is left alone. */
  function TurnOver(c: Cell): (r: Cell)
    ensures r.stoneCount == c.stoneCount
    ensures c.state == Empty ==> r == c
    ensures c.state != Empty ==> r.state != Empty && r.state != c.state
  {
    c.(state := Flipped(c.state))
  }

  /** Turning a stone over twice restores it. */
  lemma TurnOverTwice(c: Cell)
    ensures TurnOver(TurnOver(c)) == c
  {
  }

  /** `CanBePutStone`: a stone may be put exactly where putting it gains something. */
  predicate CanBePutStone(c: Cell) {
    c.stoneCount > 0
  }

  /**
   * `OnClicked`, given whether the `AcceptClick` handler is registered and what it
   * answers: whether the click is reported (through `PutStone` and `onStonePut`).
   * The square itself never changes.
   */
  function OnClicked(c: Cell, registered: bool, accepts: bool): (reported: bool)
    ensures reported <==> registered && accepts && c.stoneCount > 0
  {
    if !registered || !accepts then false
    else if !CanBePutStone(c) then false
    else true
  }

  /** The square holds a stone of colour `st` (or is empty, for `Empty`). */
  function HasState(st: CellState): Cell -> bool {
    (c: Cell) => c.state == st
  }
}
