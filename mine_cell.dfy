/**
 * A Minesweeper square (`Minesweeper.Cell`): what it hides (a mine, or the number
 * of mines around it), whether it is opened, whether a flag stands on it, and
 * whether that flag is known to sit on a mine and so may not be removed.
 */
module MineCell {

  /**
   * The hidden content: `Safe(n)` is a safe square with `n` mines around it
   * (`None` is `Safe(0)`, `One` … `Eight` are `Safe(1)` … `Safe(8)`).
   */
  datatype CellState = Safe(mines: nat) | Mine

  const None: CellState := Safe(0)
  const Eight: CellState := Safe(8)

  datatype Cell = Cell(state: CellState, isOpened: bool, flagged: bool, isMineDefinitely: bool)

  /** The mouse button released over the square. */
  datatype MouseButton = Left | Right | Neither

  /** What a click asks for: nothing, opening the square, or toggling its flag. */
  datatype ClickAction = Ignore | OpenSquare | ToggleFlag

  function IsMineCell(c: Cell): bool { c.state == Mine }

  function IsClosed(c: Cell): bool { !c.isOpened }

  /** `Init`: a closed, unflagged safe square with no mines around it. */
  function Init(c: Cell): (r: Cell)
    ensures r.state == None && !r.isOpened && !r.flagged && !r.isMineDefinitely
  {
    Cell(None, false, false, false)
  }

  /** Setting `State` to `Mine`. */
  function Bury(c: Cell): (r: Cell)
    ensures r.state == Mine
    ensures r.isOpened == c.isOpened && r.flagged == c.flagged && r.isMineDefinitely == c.isMineDefinitely
  {
    c.(state := Mine)
  }

  /**
   * The square after `Open`: opened and unflagged, whatever it held. Which event
   * `Open` raises depends on the state, which `Open` leaves alone.
   */
  function Open(c: Cell): (r: Cell)
    ensures r.isOpened && !r.flagged
    ensures r.state == c.state && r.isMineDefinitely == c.isMineDefinitely
  {
    var unflagged := if c.flagged then c.(flagged := false) else c;
    unflagged.(isOpened := true)
  }

  /** `OpenWithoutRaisingEvents`: the same square as `Open` leaves, without any event. */
  function OpenWithoutRaisingEvents(c: Cell): (r: Cell)
    ensures r.isOpened && !r.flagged
    ensures r.state == c.state && r.isMineDefinitely == c.isMineDefinitely
  {
    var unflagged := if c.flagged then c.(flagged := false) else c;
    if !unflagged.isOpened then unflagged.(isOpened := true) else unflagged
  }

  /** Opening without events twice is opening once, and leaves the square `Open` would. */
  lemma OpenWithoutRaisingEventsIdempotent(c: Cell)
    ensures OpenWithoutRaisingEvents(OpenWithoutRaisingEvents(c)) == OpenWithoutRaisingEvents(c)
    ensures OpenWithoutRaisingEvents(c) == Open(c)
  {
  }

  /** `RaiseOrRemoveFlag`: toggle the flag, except that a flag known to sit on a mine stays. */
  function RaiseOrRemoveFlag(c: Cell): (r: Cell)
    ensures r.flagged == (if c.flagged && c.isMineDefinitely then true else !c.flagged)
    ensures r.state == c.state && r.isOpened == c.isOpened && r.isMineDefinitely == c.isMineDefinitely
  {
    if c.flagged && c.isMineDefinitely then c else c.(flagged := !c.flagged)
  }

  /** A flag that is not known to sit on a mine is restored by toggling twice. */
  lemma RaiseOrRemoveFlagTwice(c: Cell)
    requires !c.isMineDefinitely
    ensures RaiseOrRemoveFlag(RaiseOrRemoveFlag(c)) == c
  {
  }

  /** Flagging a square as a certain mine (`Flagged = true; IsMineDefinitely = true`). */
  function MarkMine(c: Cell): (r: Cell)
    ensures r.flagged && r.isMineDefinitely
    ensures r.state == c.state && r.isOpened == c.isOpened
  {
    c.(flagged := true, isMineDefinitely := true)
  }

  /**
   * `OnClicked`, given whether an `AcceptClick` handler is registered, what it
   * answers, and the button released: a left click opens a closed, unflagged square;
   * a right click toggles the flag of a closed square; anything else is ignored.
   */
  function OnClicked(c: Cell, registered: bool, accepts: bool, button: MouseButton): (r: ClickAction)
    ensures r == OpenSquare <==> registered && accepts && button == Left && !c.flagged && !c.isOpened
    ensures r == ToggleFlag <==> registered && accepts && button == Right && !c.isOpened
  {
    if !registered || !accepts then Ignore
    else if button == Left then
      if !c.flagged && !c.isOpened then OpenSquare else Ignore
    else if button == Right then
      if !c.isOpened then ToggleFlag else Ignore
    else Ignore
  }
}
