/**
 * The Game of Life board (`GameOfLife.CellArray2D`): the neighbours of a position
 * that are alive (or dead), in the grid's neighbour order.
 */
module LifeCellArray {
  import opened Grid
  import opened Seqs
  import opened LifeCell

  /**
   * `GetSurroundingValues(position, deadOrAlive)`: the neighbours whose life is
   * `deadOrAlive`, in neighbour order; nothing on the board changes.
   */
  method GetSurroundingValues(cells: Array2D<Cell>, position: Pos, deadOrAlive: bool) returns (r: seq<Cell>)
    requires cells.Valid()
    ensures r == Filter(Neighbours(cells.Dims(), cells.Values[..], position), LifeIs(deadOrAlive))
    ensures forall c <- r :: c.isAlive == deadOrAlive
    ensures |r| == Count(Neighbours(cells.Dims(), cells.Values[..], position), LifeIs(deadOrAlive))
  {
    var surroundings := cells.GetSurroundingValues(position.x, position.y);
    r := Filter(surroundings, LifeIs(deadOrAlive));
    FilterLength(surroundings, LifeIs(deadOrAlive));
  }

  /** The living and the dead neighbours together are all the neighbours: at most eight. */
  lemma NeighboursPartition(s: Shape, values: seq<Cell>, p: Pos)
    requires |values| == s.Count()
    ensures |Filter(Neighbours(s, values, p), LifeIs(true))| + |Filter(Neighbours(s, values, p), LifeIs(false))|
            == |Neighbours(s, values, p)|
    ensures |Neighbours(s, values, p)| <= 8
  {
    var n := Neighbours(s, values, p);
    FilterLength(n, LifeIs(true));
    FilterLength(n, LifeIs(false));
    CountComplement(n, LifeIs(true), LifeIs(false));
  }

  /** A neighbour is kept by the filter exactly when its life matches. */
  lemma FilterExact(s: Shape, values: seq<Cell>, p: Pos, deadOrAlive: bool, c: Cell)
    requires |values| == s.Count()
    ensures c in Filter(Neighbours(s, values, p), LifeIs(deadOrAlive)) <==>
            c in Neighbours(s, values, p) && c.isAlive == deadOrAlive
  {
    if c in Neighbours(s, values, p) && c.isAlive == deadOrAlive {
      FilterKeeps(Neighbours(s, values, p), LifeIs(deadOrAlive), c);
    }
  }
}
