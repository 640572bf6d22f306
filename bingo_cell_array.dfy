/**
 * The bingo card (`Bingo.CellArray2D`): deciding whether some column, row or
 * diagonal is completely marked. A line is complete when none of its squares is
 * Invalid, so Valid and Free squares both count.
 */
module BingoCellArray {
  import opened Wrappers
  import opened Grid
  import opened BingoCell

  /** `ContainInvalid`: scans the line from the front for an unmarked square. */
  function ContainInvalid(cells: seq<Cell>): (b: bool)
    ensures b <==> exists k :: 0 <= k < |cells| && !Marked(cells[k])
  {
    if cells == [] then false
    else
      var rest := ContainInvalid(cells[1..]);
      assert rest <==> exists k :: 1 <= k < |cells| && !Marked(cells[k]) by {
        forall k | 1 <= k < |cells|
          ensures cells[k] == cells[1..][k - 1]
        {
        }
      }
      !Marked(cells[0]) || rest
  }

  /**
   * `GetCellLine`: the squares met walking from `pivot` in steps of `dir` until the
   * first position off the card. Both walks the card makes step one column to the
   * right, which is what bounds the walk.
   */
  function CellLine(s: Shape, values: seq<Cell>, pivot: Pos, dir: Pos): (r: seq<Cell>)
    requires |values| == s.Count() && dir.x == 1
    ensures r == [] <==> !s.Contains(pivot)
    ensures 0 <= pivot.x <= s.columns ==> |r| <= s.columns - pivot.x
    decreases s.columns - pivot.x
  {
    match GetValue(s, values, pivot.x, pivot.y)
    case None => []
    case Some(c) => [c] + CellLine(s, values, pivot.Plus(dir), dir)
  }

  function Min(a: int, b: int): int { if a < b then a else b }

  /** The main diagonal (k, k), as long as the shorter side. */
  function Diagonal(s: Shape, values: seq<Cell>): (r: seq<Cell>)
    requires |values| == s.Count()
  {
    seq(Min(s.rows, s.columns), k requires 0 <= k < Min(s.rows, s.columns) => values[s.Index(Pos(k, k))])
  }

  /** The anti-diagonal (k, Rows - 1 - k), as long as the shorter side. */
  function AntiDiagonal(s: Shape, values: seq<Cell>): (r: seq<Cell>)
    requires |values| == s.Count()
  {
    seq(Min(s.rows, s.columns), k requires 0 <= k < Min(s.rows, s.columns) => values[s.Index(Pos(k, s.rows - 1 - k))])
  }

  /** The walk from (j, j) down-right collects the main diagonal from its j-th square on. */
  lemma {:induction false} DiagonalWalk(s: Shape, values: seq<Cell>, j: int)
    requires |values| == s.Count() && 0 <= j <= Min(s.rows, s.columns)
    ensures CellLine(s, values, Pos(j, j), Pos(1, 1)) == Diagonal(s, values)[j..]
    decreases Min(s.rows, s.columns) - j
  {
    if j < Min(s.rows, s.columns) {
      DiagonalWalk(s, values, j + 1);
    }
  }

  /** The walk from (j, Rows - 1 - j) up-right collects the anti-diagonal from its j-th square on. */
  lemma {:induction false} AntiDiagonalWalk(s: Shape, values: seq<Cell>, j: int)
    requires |values| == s.Count() && 0 <= j <= Min(s.rows, s.columns)
    ensures CellLine(s, values, Pos(j, s.rows - 1 - j), Pos(1, -1)) == AntiDiagonal(s, values)[j..]
    decreases Min(s.rows, s.columns) - j
  {
    if j < Min(s.rows, s.columns) {
      AntiDiagonalWalk(s, values, j + 1);
    }
  }

  predicate ColumnComplete(s: Shape, values: seq<Cell>, x: int)
    requires |values| == s.Count() && 0 <= x < s.columns
  {
    forall y :: 0 <= y < s.rows ==> Marked(values[s.Index(Pos(x, y))])
  }

  predicate RowComplete(s: Shape, values: seq<Cell>, y: int)
    requires |values| == s.Count() && 0 <= y < s.rows
  {
    forall x :: 0 <= x < s.columns ==> Marked(values[s.Index(Pos(x, y))])
  }

  predicate DiagonalComplete(s: Shape, values: seq<Cell>)
    requires |values| == s.Count()
  {
    var d := Diagonal(s, values);
    forall k :: 0 <= k < |d| ==> Marked(d[k])
  }

  predicate AntiDiagonalComplete(s: Shape, values: seq<Cell>)
    requires |values| == s.Count()
  {
    var d := AntiDiagonal(s, values);
    forall k :: 0 <= k < |d| ==> Marked(d[k])
  }

  /** A bingo: some column, some row, the main diagonal or the anti-diagonal is completely marked. */
  predicate HasBingo(s: Shape, values: seq<Cell>)
    requires |values| == s.Count()
  {
    (exists x :: 0 <= x < s.columns && ColumnComplete(s, values, x))
    || (exists y :: 0 <= y < s.rows && RowComplete(s, values, y))
    || DiagonalComplete(s, values)
    || AntiDiagonalComplete(s, values)
  }

  lemma ColumnScan(cells: Array2D<Cell>, x: int, column: seq<Option<Cell>>)
    requires cells.Valid() && 0 <= x < cells.Columns
    requires |column| == cells.Rows
    requires forall i :: 0 <= i < cells.Rows ==> column[i] == Some(Column(cells.Dims(), cells.Values[..], x)[i])
    ensures forall i :: 0 <= i < |column| ==> column[i].Some?
    ensures ContainInvalid(Present(column)) <==> !ColumnComplete(cells.Dims(), cells.Values[..], x)
  {
    var s, values := cells.Dims(), cells.Values[..];
    forall y | 0 <= y < s.rows
      ensures Present(column)[y] == values[s.Index(Pos(x, y))]
    {
    }
  }

  lemma RowScan(cells: Array2D<Cell>, y: int, row: seq<Option<Cell>>)
    requires cells.Valid() && 0 <= y < cells.Rows
    requires |row| == cells.Columns
    requires forall i :: 0 <= i < cells.Columns ==> row[i] == Some(Row(cells.Dims(), cells.Values[..], y)[i])
    ensures forall i :: 0 <= i < |row| ==> row[i].Some?
    ensures ContainInvalid(Present(row)) <==> !RowComplete(cells.Dims(), cells.Values[..], y)
  {
    var s, values := cells.Dims(), cells.Values[..];
    forall x | 0 <= x < s.columns
      ensures Present(row)[x] == values[s.Index(Pos(x, y))]
    {
    }
  }

  lemma DiagonalScan(s: Shape, values: seq<Cell>)
    requires |values| == s.Count()
    ensures ContainInvalid(CellLine(s, values, Pos(0, 0), Pos(1, 1))) <==> !DiagonalComplete(s, values)
    ensures ContainInvalid(CellLine(s, values, Pos(0, s.rows - 1), Pos(1, -1))) <==> !AntiDiagonalComplete(s, values)
  {
    DiagonalWalk(s, values, 0);
    AntiDiagonalWalk(s, values, 0);
    assert Diagonal(s, values)[0..] == Diagonal(s, values);
    assert AntiDiagonal(s, values)[0..] == AntiDiagonal(s, values);
  }

  /** `IsBingo`: columns first, then rows, then the two diagonal walks; reads the card only. */
  method IsBingo(cells: Array2D<Cell>) returns (b: bool)
    requires cells.Valid()
    ensures b <==> HasBingo(cells.Dims(), cells.Values[..])
  {
    var s, values := cells.Dims(), cells.Values[..];
    for i := 0 to cells.Columns
      invariant forall x :: 0 <= x < i ==> !ColumnComplete(s, values, x)
    {
      var column := cells.GetXValues(i);
      ColumnScan(cells, i, column);
      if !ContainInvalid(Present(column)) {
        return true;
      }
    }
    for i := 0 to cells.Rows
      invariant forall y :: 0 <= y < i ==> !RowComplete(s, values, y)
    {
      var row := cells.GetYValues(i);
      RowScan(cells, i, row);
      if !ContainInvalid(Present(row)) {
        return true;
      }
    }
    DiagonalScan(s, values);
    var diagonal := CellLine(s, values, Pos(0, 0), Pos(1, 1));
    if !ContainInvalid(diagonal) {
      return true;
    }
    var antiDiagonal := CellLine(s, values, Pos(0, s.rows - 1), Pos(1, -1));
    if !ContainInvalid(antiDiagonal) {
      return true;
    }
    return false;
  }

  /** Marking more squares never undoes a bingo. */
  lemma BingoMonotone(s: Shape, values: seq<Cell>, values': seq<Cell>)
    requires |values| == |values'| == s.Count()
    requires forall i :: 0 <= i < |values| && Marked(values[i]) ==> Marked(values'[i])
    requires HasBingo(s, values)
    ensures HasBingo(s, values')
  {
    if x :| 0 <= x < s.columns && ColumnComplete(s, values, x) {
      assert ColumnComplete(s, values', x);
    } else if y :| 0 <= y < s.rows && RowComplete(s, values, y) {
      assert RowComplete(s, values', y);
    } else if DiagonalComplete(s, values) {
      var d, d' := Diagonal(s, values), Diagonal(s, values');
      assert forall k :: 0 <= k < |d| ==> Marked(d'[k]) by {
        forall k | 0 <= k < |d|
          ensures Marked(d'[k])
        {
          assert d[k] == values[s.Index(Pos(k, k))];
        }
      }
    } else {
      var d, d' := AntiDiagonal(s, values), AntiDiagonal(s, values');
      assert forall k :: 0 <= k < |d| ==> Marked(d'[k]) by {
        forall k | 0 <= k < |d|
          ensures Marked(d'[k])
        {
          assert d[k] == values[s.Index(Pos(k, s.rows - 1 - k))];
        }
      }
    }
  }
}
