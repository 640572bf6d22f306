/**
 * The Reversi board (`Reversi.CellArray2D`): the neighbours of a position holding a
 * given state, in the grid's neighbour order.
 */
module ReversiCellArray {
  import opened Grid
  import opened Seqs
  import opened ReversiCell

  /**
   * `GetSurroundingValues(position, state)`: the neighbours whose state is `state`,
   * an order-preserving selection of the neighbour list; nothing on the board changes.
   */
  method GetSurroundingValues(cells: Array2D<Cell>, position: Pos, state: CellState) returns (r: seq<Cell>)
    requires cells.Valid()
    ensures r == Filter(Neighbours(cells.Dims(), cells.Values[..], position), HasState(state))
    ensures forall c <- r :: c.state == state
    ensures |r| == Count(Neighbours(cells.Dims(), cells.Values[..], position), HasState(state)) <= 8
  {
    var surroundings := cells.GetSurroundingValues(position.x, position.y);
    r := Filter(surroundings, HasState(state));
    FilterLength(surroundings, HasState(state));
  }

  /** A neighbour is selected exactly when it holds the requested state. */
  lemma FilterExact(s: Shape, values: seq<Cell>, p: Pos, state: CellState, c: Cell)
    requires |values| == s.Count()
    ensures c in Filter(Neighbours(s, values, p), HasState(state)) <==>
            c in Neighbours(s, values, p) && c.state == state
  {
    if c in Neighbours(s, values, p) && c.state == state {
      FilterKeeps(Neighbours(s, values, p), HasState(state), c);
    }
  }
}
