/**
 * A square of the bingo card (`Bingo.Cell`): its mark state and the number printed
 * on it. A cell is Invalid until its number is drawn, Valid once punched, and the
 * free square is Free from the start.
 */
module BingoCell {

  datatype CellState = Invalid | Valid | Free

  datatype Cell = Cell(state: CellState, number: int)

  /** Valid and Free squares both count towards a line. */
  predicate Marked(c: Cell) { c.state != Invalid }

  /** `Init`: an unmarked square with number 0, whatever the square held before. */
  function Init(c: Cell): (r: Cell)
    ensures !Marked(r) && r.number == 0
  {
    Cell(Invalid, 0)
  }

  /** `OnClicked`: toggles a square between Invalid and Valid; the free square ignores clicks. */
  function OnClicked(c: Cell): (r: Cell)
    ensures r.number == c.number
    ensures c.state == Free <==> r.state == Free
    ensures c.state == Free ==> r == c
    ensures c.state != Free ==> Marked(r) == !Marked(c)
  {
    match c.state
    case Invalid => c.(state := Valid)
    case Valid => c.(state := Invalid)
    case Free => c
  }

  /** Two clicks restore the square. */
  lemma OnClickedTwice(c: Cell)
    ensures OnClicked(OnClicked(c)) == c
  {
  }
}
