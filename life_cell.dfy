/**
 * A Game of Life cell (`GameOfLife.Cell`): whether it is alive, and the state the
 * last step computed for it. Applying the state makes born and surviving cells
 * alive and under- or overpopulated cells dead; `None` keeps the cell as it is.
 */
module LifeCell {

  datatype CellState = None | Birth | Survival | Underpopulation | Overpopulation

  datatype Cell = Cell(isAlive: bool, state: CellState)

  /** `Init`: dead, with no pending state. */
  function Init(c: Cell): (r: Cell)
    ensures !r.isAlive && r.state == None
  {
    Cell(false, None)
  }

  /** `UpdateDeadOrAlive`: the cell's life after applying its state; the state itself stays. */
  function UpdateDeadOrAlive(c: Cell): (r: Cell)
    ensures r.state == c.state
    ensures c.state in {Birth, Survival} ==> r.isAlive
    ensures c.state in {Underpopulation, Overpopulation} ==> !r.isAlive
    ensures c.state == None ==> r == c
  {
    match c.state
    case None => c
    case Birth => c.(isAlive := true)
    case Survival => c.(isAlive := true)
    case Underpopulation => c.(isAlive := false)
    case Overpopulation => c.(isAlive := false)
  }

  /** Applying the same state twice is the same as applying it once. */
  lemma UpdateDeadOrAliveIdempotent(c: Cell)
    ensures UpdateDeadOrAlive(UpdateDeadOrAlive(c)) == UpdateDeadOrAlive(c)
  {
  }

  /** Setting `IsAlive` to true. */
  function BringToLife(c: Cell): (r: Cell)
    ensures r.isAlive && r.state == c.state
  {
    c.(isAlive := true)
  }

  /** `SwitchDeadOrAlive`. */
  function SwitchDeadOrAlive(c: Cell): (r: Cell)
    ensures r.isAlive != c.isAlive && r.state == c.state
  {
    c.(isAlive := !c.isAlive)
  }

  /**
   * `OnClicked`, given whether an `AcceptClick` handler is registered and what it
   * answers: an accepted click switches life and death, any other click does nothing.
   */
  function OnClicked(c: Cell, registered: bool, accepts: bool): (r: Cell)
    ensures r.state == c.state
    ensures r.isAlive != c.isAlive <==> registered && accepts
  {
    if !registered || !accepts then c else SwitchDeadOrAlive(c)
  }

  /** Two accepted clicks restore the cell. */
  lemma OnClickedTwice(c: Cell)
    ensures OnClicked(OnClicked(c, true, true), true, true) == c
  {
  }

  /** The filter `x => x.IsAlive == deadOrAlive`. */
  function LifeIs(deadOrAlive: bool): Cell -> bool {
    (c: Cell) => c.isAlive == deadOrAlive
  }

  function HasState(st: CellState): Cell -> bool {
    (c: Cell) => c.state == st
  }
}
