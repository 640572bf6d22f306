/**
 * The two-dimensional grid every game is built on (`MonoBehaviourArray2D<T>`):
 * a flat array of Rows × Columns values addressed by (x, y), with x in
 * [0, Columns) and y in [0, Rows). Out-of-range lookups answer "no value"
 * (`None`) rather than failing.
 *
 * The source computes the flat index as `y * Rows + x` and converts back with
 * `(index % Columns, index / Rows)`. That is a bijection only on square grids;
 * the model indexes row-major with `y * Columns + x` (`Shape.Index`), keeps the
 * formula as written (`Shape.SourceIndex`), and proves the two agree whenever
 * Rows == Columns. The games use the row-major index for every shape, so on a
 * board that is not square they compute the intended result where the source
 * aliases two squares or reads past the array.
 */
module Grid {
  import opened Wrappers

  datatype Pos = Pos(x: int, y: int) {
    function Plus(d: Pos): Pos { Pos(x + d.x, y + d.y) }
    function Minus(q: Pos): Pos { Pos(x - q.x, y - q.y) }
  }

  /** `p` is one of the eight cells around `c`. */
  predicate Adjacent(p: Pos, c: Pos) {
    p != c && -1 <= p.x - c.x <= 1 && -1 <= p.y - c.y <= 1
  }

  lemma MulMono(a: int, b: int, c: int)
    requires a <= b && 0 <= c
    ensures a * c <= b * c
  {
    assert b * c - a * c == (b - a) * c;
  }

  lemma MulGap(a: int, b: int, c: int)
    requires a < b && 0 < c
    ensures a * c + c <= b * c
  {
    MulMono(a + 1, b, c);
    assert (a + 1) * c == a * c + c;
  }

  /** Euclidean quotient and remainder are determined by `i == q * c + r, 0 <= r < c`. */
  lemma DivModUnique(i: int, c: int, q: int, r: int)
    requires 0 < c && 0 <= r < c && i == q * c + r
    ensures i / c == q && i % c == r
  {
    var q', r' := i / c, i % c;
    assert i == q' * c + r';
    if q > q' {
      MulGap(q', q, c);
      assert false;
    } else if q < q' {
      MulGap(q, q', c);
      assert false;
    }
  }

  datatype Shape = Shape(rows: nat, columns: nat) {

    function Count(): nat { rows * columns }

    predicate IsOutOfRange(x: int, y: int) {
      x < 0 || x >= columns || y < 0 || y >= rows
    }

    predicate Contains(p: Pos) { !IsOutOfRange(p.x, p.y) }

    /** Row-major flat index of a position; in range for every in-range position. */
    function Index(p: Pos): (i: int)
      ensures Contains(p) ==> 0 <= i < Count()
    {
      var i := p.y * columns + p.x;
      assert Contains(p) ==> 0 <= i < Count() by {
        if Contains(p) {
          MulMono(0, p.y, columns);
          MulMono(p.y, rows - 1, columns);
        }
      }
      i
    }

    /** Position of a flat index: the inverse of `Index` on `[0, Count())`. */
    function ToPosition(i: int): (p: Pos)
      requires columns > 0
      ensures 0 <= i < Count() ==> Contains(p) && Index(p) == i
    {
      var p := Pos(i % columns, i / columns);
      assert 0 <= i < Count() ==> Contains(p) && Index(p) == i by {
        if 0 <= i < Count() {
          assert i == (i / columns) * columns + i % columns;
          if i / columns < 0 {
            MulMono(i / columns, -1, columns);
          }
          if i / columns >= rows {
            MulMono(rows, i / columns, columns);
          }
        }
      }
      p
    }

    /** The flat index exactly as the source computes it (`y * Rows + x`). */
    function SourceIndex(p: Pos): int { p.y * rows + p.x }

    /** The index-to-position conversion exactly as the source computes it. */
    function SourceToPosition(i: int): Pos
      requires rows > 0 && columns > 0
    {
      Pos(i % columns, i / rows)
    }
  }

  /** Converting an in-range position to its index and back gives the position again. */
  lemma ToPositionOfIndex(s: Shape, p: Pos)
    requires s.Contains(p)
    ensures s.ToPosition(s.Index(p)) == p
  {
    DivModUnique(s.Index(p), s.columns, p.y, p.x);
  }

  /** A board with a cell `k` has at least one column, so `ToPosition(k)` is defined. */
  lemma ColumnsOfNonEmpty(s: Shape, k: int)
    requires 0 <= k < s.Count()
    ensures s.columns > 0
  {
  }

  /** Distinct in-range positions have distinct indices. */
  lemma IndexInjective(s: Shape, p: Pos, q: Pos)
    requires s.Contains(p) && s.Contains(q) && p != q
    ensures s.Index(p) != s.Index(q)
  {
    ToPositionOfIndex(s, p);
    ToPositionOfIndex(s, q);
  }

  lemma IndexInjectiveAll(s: Shape)
    ensures forall p, q :: s.Contains(p) && s.Contains(q) && s.Index(p) == s.Index(q) ==> p == q
  {
    forall p, q | s.Contains(p) && s.Contains(q) && s.Index(p) == s.Index(q)
      ensures p == q
    {
      ToPositionOfIndex(s, p);
      ToPositionOfIndex(s, q);
    }
  }

  /** On a square grid the source's formulas coincide with the row-major ones. */
  lemma SquareSourceAgrees(s: Shape, p: Pos, i: int)
    requires s.rows == s.columns > 0
    ensures s.SourceIndex(p) == s.Index(p)
    ensures s.SourceToPosition(i) == s.ToPosition(i)
  {
  }

  /** With more columns than rows (and at least two rows) the source's index aliases two cells. */
  lemma SourceIndexAliases(s: Shape)
    requires 2 <= s.rows < s.columns
    ensures s.Contains(Pos(s.rows, 0)) && s.Contains(Pos(0, 1))
    ensures s.SourceIndex(Pos(s.rows, 0)) == s.SourceIndex(Pos(0, 1))
  {
  }

  /** With more rows than columns the source's index of the last cell runs past the array. */
  lemma {:induction false} SourceIndexOverflows(s: Shape)
    requires s.rows > s.columns > 0
    ensures s.Contains(Pos(s.columns - 1, s.rows - 1))
    ensures s.SourceIndex(Pos(s.columns - 1, s.rows - 1)) >= s.Count()
  {
    var r, c := s.rows, s.columns;
    MulMono(1, r - 1, r - c);
    assert (r - 1) * r + c - 1 - r * c == (r - 1) * (r - c) - 1;
  }

  /** `GetValue(x, y)`: the value at (x, y), or `None` exactly when (x, y) is out of range. */
  function GetValue<T>(s: Shape, values: seq<T>, x: int, y: int): (r: Option<T>)
    requires |values| == s.Count()
    ensures r.None? <==> s.IsOutOfRange(x, y)
    ensures r.Some? ==> r.value == values[s.Index(Pos(x, y))]
  {
    if s.IsOutOfRange(x, y) then None else Some(values[s.Index(Pos(x, y))])
  }

  /** The k-th cell (0 <= k < 9) of the 3×3 block centred on `c`, in row-major order. */
  function BlockCell(c: Pos, k: int): Pos {
    Pos(c.x - 1 + k % 3, c.y - 1 + k / 3)
  }

  /** Row-major rank of a cell of the 3×3 block centred on `c`: the inverse of `BlockCell`. */
  function BlockRank(p: Pos, c: Pos): int {
    3 * (p.y - c.y + 1) + (p.x - c.x + 1)
  }

  lemma BlockCellOfRank(p: Pos, c: Pos)
    requires -1 <= p.x - c.x <= 1 && -1 <= p.y - c.y <= 1
    ensures 0 <= BlockRank(p, c) < 9 && BlockCell(c, BlockRank(p, c)) == p
  {
    DivModUnique(BlockRank(p, c), 3, p.y - c.y + 1, p.x - c.x + 1);
  }

  /** The in-range cells among the first `k` cells of the block around `c`, centre excluded. */
  function SurroundingUpTo(s: Shape, c: Pos, k: nat): (r: seq<Pos>)
    requires k <= 9
    ensures forall p <- r :: s.Contains(p) && Adjacent(p, c) && 0 <= BlockRank(p, c) < k
  {
    if k == 0 then []
    else
      var p := BlockCell(c, k - 1);
      SurroundingUpTo(s, c, k - 1) + (if p == c || s.IsOutOfRange(p.x, p.y) then [] else [p])
  }

  /**
   * The positions `GetSurroundingValues(x, y)` reads: the in-range cells of the
   * 3×3 block around `c` minus the centre, in row-major order.
   */
  function Surrounding(s: Shape, c: Pos): seq<Pos> {
    SurroundingUpTo(s, c, 9)
  }

  /** A position is listed around `c` exactly when it is in range and adjacent to `c`. */
  lemma {:induction false} SurroundingUpToComplete(s: Shape, c: Pos, k: nat, p: Pos)
    requires k <= 9
    ensures p in SurroundingUpTo(s, c, k) <==> s.Contains(p) && Adjacent(p, c) && BlockRank(p, c) < k
  {
    if k > 0 {
      SurroundingUpToComplete(s, c, k - 1, p);
      var q := BlockCell(c, k - 1);
      var tail := if q == c || s.IsOutOfRange(q.x, q.y) then [] else [q];
      assert SurroundingUpTo(s, c, k) == SurroundingUpTo(s, c, k - 1) + tail;
      if p in tail {
        assert BlockRank(p, c) == k - 1;
      }
      if s.Contains(p) && Adjacent(p, c) && BlockRank(p, c) == k - 1 {
        BlockCellOfRank(p, c);
        assert p in tail;
      }
    }
  }

  lemma SurroundingComplete(s: Shape, c: Pos, p: Pos)
    ensures p in Surrounding(s, c) <==> s.Contains(p) && Adjacent(p, c)
  {
    SurroundingUpToComplete(s, c, 9, p);
  }

  predicate Distinct<T(==)>(r: seq<T>) {
    forall i, j :: 0 <= i < j < |r| ==> r[i] != r[j]
  }

  /** The surrounding list has no repeats and at most eight entries. */
  lemma {:induction false} SurroundingUpToShape(s: Shape, c: Pos, k: nat)
    requires k <= 9
    ensures Distinct(SurroundingUpTo(s, c, k))
    ensures |SurroundingUpTo(s, c, k)| <= if k > 4 then k - 1 else k
  {
    if k > 0 {
      SurroundingUpToShape(s, c, k - 1);
      var p := BlockCell(c, k - 1);
      assert BlockRank(p, c) == k - 1;
      assert k == 5 ==> p == c;
    }
  }

  lemma SurroundingShape(s: Shape, c: Pos)
    ensures Distinct(Surrounding(s, c)) && |Surrounding(s, c)| <= 8
  {
    SurroundingUpToShape(s, c, 9);
  }

  /** The values stored at the positions `ps`, in that order. */
  function ValuesAt<T>(s: Shape, values: seq<T>, ps: seq<Pos>): (r: seq<T>)
    requires |values| == s.Count()
    requires forall p <- ps :: s.Contains(p)
    ensures |r| == |ps|
    ensures forall k :: 0 <= k < |ps| ==> r[k] == values[s.Index(ps[k])]
  {
    seq(|ps|, k requires 0 <= k < |ps| => values[s.Index(ps[k])])
  }

  /** The values around `c`, in the order `GetSurroundingValues` lists them: at most eight. */
  function Neighbours<T>(s: Shape, values: seq<T>, c: Pos): (r: seq<T>)
    requires |values| == s.Count()
    ensures |r| <= 8
  {
    SurroundingShape(s, c);
    ValuesAt(s, values, Surrounding(s, c))
  }

  /** Extending the block walk by one cell appends that cell's value when it is listed. */
  lemma SurroundingStep<T>(s: Shape, values: seq<T>, c: Pos, k: nat)
    requires k < 9 && |values| == s.Count()
    ensures var p := BlockCell(c, k);
      ValuesAt(s, values, SurroundingUpTo(s, c, k + 1))
      == ValuesAt(s, values, SurroundingUpTo(s, c, k))
         + (if p == c || s.IsOutOfRange(p.x, p.y) then [] else [values[s.Index(p)]])
  {
  }

  /** The flat indices of the positions `ps`. */
  function IndicesOf(s: Shape, ps: seq<Pos>): set<int> {
    set q | q in ps :: s.Index(q)
  }

  /** Extending the positions by one adds exactly that position's index. */
  lemma IndicesOfStep(s: Shape, ps: seq<Pos>, i: int)
    requires 0 <= i < |ps|
    ensures IndicesOf(s, ps[..i + 1]) == IndicesOf(s, ps[..i]) + {s.Index(ps[i])}
  {
    assert ps[..i + 1] == ps[..i] + [ps[i]];
  }

  /** The values of a sequence of lookups that all found a value. */
  function Present<T>(s: seq<Option<T>>): (r: seq<T>)
    requires forall k :: 0 <= k < |s| ==> s[k].Some?
    ensures |r| == |s| && forall k :: 0 <= k < |s| ==> s[k] == Some(r[k])
  {
    seq(|s|, k requires 0 <= k < |s| => s[k].value)
  }

  /** Column `x` read top to bottom (`GetXValues`). */
  function Column<T>(s: Shape, values: seq<T>, x: int): (r: seq<T>)
    requires |values| == s.Count() && 0 <= x < s.columns
    ensures |r| == s.rows
  {
    seq(s.rows, i requires 0 <= i < s.rows => values[s.Index(Pos(x, i))])
  }

  /** Row `y` read left to right (`GetYValues`). */
  function Row<T>(s: Shape, values: seq<T>, y: int): (r: seq<T>)
    requires |values| == s.Count() && 0 <= y < s.rows
    ensures |r| == s.columns
  {
    seq(s.columns, i requires 0 <= i < s.columns => values[s.Index(Pos(i, y))])
  }

  /** Every element of `values` replaced by `reset` of it. */
  function ResetAll<T>(values: seq<T>, reset: T -> T): (r: seq<T>)
    ensures |r| == |values|
    ensures forall i :: 0 <= i < |values| ==> r[i] == reset(values[i])
  {
    seq(|values|, i requires 0 <= i < |values| => reset(values[i]))
  }

  /**
   * The grid object: its size is fixed, its backing array is allocated by the
   * first `Init` and reused afterwards. Each game's cells live in `Values`.
   */
  class Array2D<T(0)> {
    const Rows: nat
    const Columns: nat
    var Values: array?<T>

    function Dims(): Shape { Shape(Rows, Columns) }

    ghost predicate Valid()
      reads this
    {
      Values != null && Values.Length == Rows * Columns
    }

    /** The array, once allocated, has exactly one slot per cell. */
    ghost predicate Sized()
      reads this
    {
      Values != null ==> Values.Length == Rows * Columns
    }

    constructor (rows: nat, columns: nat)
      ensures Rows == rows && Columns == columns && Values == null
    {
      Rows, Columns := rows, columns;
      Values := null;
    }

    /**
     * `Init`: the first call allocates Rows × Columns slots (the values are then
     * instantiated by the engine); later calls re-initialise every existing value
     * with the cell type's own `Init` (`reset`) and keep the same array.
     */
    method Init(reset: T -> T)
      requires Sized()
      modifies this, Values
      ensures Valid()
      ensures old(Values) == null ==> fresh(Values)
      ensures old(Values) != null ==>
                Values == old(Values) && Values[..] == ResetAll(old(Values[..]), reset)
    {
      if Values == null {
        Values := new T[Rows * Columns];
        return;
      }
      var values := Values;
      for i := 0 to values.Length
        invariant values == Values
        invariant forall j :: 0 <= j < i ==> values[j] == reset(old(values[j]))
        invariant forall j :: i <= j < values.Length ==> values[j] == old(values[j])
      {
        values[i] := reset(values[i]);
      }
    }

    /** `SetValue(value, index)`: stores the value when the index is inside the array. */
    method SetValue(value: T, index: int) returns (ok: bool)
      requires Valid()
      modifies Values
      ensures ok <==> 0 <= index < Values.Length
      ensures ok ==> Values[..] == old(Values[..])[index := value]
      ensures !ok ==> Values[..] == old(Values[..])
    {
      ok := false;
      if !(index < 0 || index >= Values.Length) {
        Values[index] := value;
        ok := true;
      }
    }

    /**
     * `SetValue(value, x, y)`: stores the value at (x, y) when it is in range; the
     * position it records for the value is the one `ToPosition` recovers from the slot.
     */
    method SetValueAt(value: T, x: int, y: int) returns (ok: bool)
      requires Valid()
      modifies Values
      ensures ok <==> !Dims().IsOutOfRange(x, y)
      ensures ok ==> Values[..] == old(Values[..])[Dims().Index(Pos(x, y)) := value]
      ensures ok ==> Dims().ToPosition(Dims().Index(Pos(x, y))) == Pos(x, y)
      ensures !ok ==> Values[..] == old(Values[..])
    {
      ok := false;
      if !Dims().IsOutOfRange(x, y) {
        Values[Dims().Index(Pos(x, y))] := value;
        ToPositionOfIndex(Dims(), Pos(x, y));
        ok := true;
      }
    }

    /** `GetSurroundingValues(x, y)`: the values around (x, y), built by the source's nested loops. */
    method GetSurroundingValues(x: int, y: int) returns (r: seq<T>)
      requires Valid()
      ensures r == Neighbours(Dims(), Values[..], Pos(x, y))
    {
      var s, c, values := Dims(), Pos(x, y), Values[..];
      r := [];
      var row := y - 1;
      while row <= y + 1
        invariant y - 1 <= row <= y + 2
        invariant r == ValuesAt(s, values, SurroundingUpTo(s, c, 3 * (row - y + 1)))
      {
        var column := x - 1;
        while column <= x + 1
          invariant x - 1 <= column <= x + 2
          invariant r == ValuesAt(s, values, SurroundingUpTo(s, c, 3 * (row - y + 1) + (column - x + 1)))
        {
          ghost var k := 3 * (row - y + 1) + (column - x + 1);
          BlockCellOfRank(Pos(column, row), c);
          assert BlockCell(c, k) == Pos(column, row);
          SurroundingStep(s, values, c, k);
          if !((column == x && row == y) || s.IsOutOfRange(column, row)) {
            r := r + [values[s.Index(Pos(column, row))]];
          }
          column := column + 1;
          assert k + 1 == 3 * (row - y + 1) + (column - x + 1);
        }
        assert 3 * (row - y + 1) + (column - x + 1) == 3 * (row + 1 - y + 1);
        row := row + 1;
      }
    }

    /** `GetXValues(x)`: the Rows values of column x by increasing y (none when x is out of range). */
    method GetXValues(x: int) returns (r: seq<Option<T>>)
      requires Valid()
      ensures |r| == Rows
      ensures 0 <= x < Columns ==> forall i :: 0 <= i < Rows ==> r[i] == Some(Column(Dims(), Values[..], x)[i])
      ensures !(0 <= x < Columns) ==> forall i :: 0 <= i < Rows ==> r[i] == None
    {
      r := [];
      for i := 0 to Rows
        invariant |r| == i
        invariant forall j :: 0 <= j < i ==> r[j] == GetValue(Dims(), Values[..], x, j)
      {
        r := r + [GetValue(Dims(), Values[..], x, i)];
      }
    }

    /** `GetYValues(y)`: the Columns values of row y by increasing x (none when y is out of range). */
    method GetYValues(y: int) returns (r: seq<Option<T>>)
      requires Valid()
      ensures |r| == Columns
      ensures 0 <= y < Rows ==> forall i :: 0 <= i < Columns ==> r[i] == Some(Row(Dims(), Values[..], y)[i])
      ensures !(0 <= y < Rows) ==> forall i :: 0 <= i < Columns ==> r[i] == None
    {
      r := [];
      for i := 0 to Columns
        invariant |r| == i
        invariant forall j :: 0 <= j < i ==> r[j] == GetValue(Dims(), Values[..], j, y)
      {
        r := r + [GetValue(Dims(), Values[..], i, y)];
      }
    }
  }
}
