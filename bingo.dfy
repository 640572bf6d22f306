/**
 * The bingo game (`Bingo.Bingo`): a card of numbered squares, a lottery machine,
 * and the game state Ready → Play → Clear. Entering Ready deals a new card: column
 * i gets distinct numbers from the window
 * `[startNumber + i * endNumber, endNumber + i * endNumber]` and one square is
 * free. Each number the lottery reports punches the first square holding it, and
 * the game is cleared as soon as a line is complete.
 */
module Bingo {
  import opened Wrappers
  import opened Grid
  import opened RandomUtility
  import opened GameVariable
  import opened BingoCell
  import opened BingoCellArray
  import opened BingoLottery

  datatype GameState = Ready | Play | Clear

  /** The lowest number column `i` may hold. */
  function WindowLow(startNumber: int, endNumber: int, i: int): int { startNumber + i * endNumber }

  /** The highest number column `i` may hold. */
  function WindowHigh(startNumber: int, endNumber: int, i: int): int { endNumber + i * endNumber }

  /** Every square holds a number from its column's window. */
  ghost predicate NumbersInWindows(s: Shape, values: seq<Cell>, startNumber: int, endNumber: int)
    requires |values| == s.Count()
  {
    forall p :: s.Contains(p) ==>
      WindowLow(startNumber, endNumber, p.x) <= values[s.Index(p)].number <= WindowHigh(startNumber, endNumber, p.x)
  }

  /** No number appears twice in a column. */
  ghost predicate ColumnsDistinct(s: Shape, values: seq<Cell>)
    requires |values| == s.Count()
  {
    forall p, q :: s.Contains(p) && s.Contains(q) && p.x == q.x && p.y != q.y ==>
      values[s.Index(p)].number != values[s.Index(q)].number
  }

  /** No number appears twice on the card. */
  ghost predicate NumbersDistinct(s: Shape, values: seq<Cell>)
    requires |values| == s.Count()
  {
    forall p, q :: s.Contains(p) && s.Contains(q) && p != q ==>
      values[s.Index(p)].number != values[s.Index(q)].number
  }

  /** With positive numbers, a column's window lies wholly below the windows of the columns after it. */
  lemma WindowsDisjoint(startNumber: int, endNumber: int, i: int, j: int)
    requires 1 <= startNumber <= endNumber && 0 <= i < j
    ensures WindowHigh(startNumber, endNumber, i) < WindowLow(startNumber, endNumber, j)
  {
    MulMono(i + 1, j, endNumber);
    assert (i + 1) * endNumber == endNumber + i * endNumber;
  }

  /** A card dealt from positive windows has no repeated number at all. */
  lemma CardNumbersDistinct(s: Shape, values: seq<Cell>, startNumber: int, endNumber: int)
    requires |values| == s.Count() && 1 <= startNumber <= endNumber
    requires NumbersInWindows(s, values, startNumber, endNumber) && ColumnsDistinct(s, values)
    ensures NumbersDistinct(s, values)
  {
    forall p, q | s.Contains(p) && s.Contains(q) && p != q
      ensures values[s.Index(p)].number != values[s.Index(q)].number
    {
      if p.x < q.x {
        WindowsDisjoint(startNumber, endNumber, p.x, q.x);
      } else if q.x < p.x {
        WindowsDisjoint(startNumber, endNumber, q.x, p.x);
      }
    }
  }

  /** `FirstOrDefault(n => n.Number == number)`: the first slot, in array order, holding `number`. */
  function FirstWithNumber(values: seq<Cell>, number: int): (r: Option<nat>)
    ensures r.Some? ==> r.value < |values| && values[r.value].number == number
    ensures r.Some? ==> forall j :: 0 <= j < r.value ==> values[j].number != number
    ensures r.None? ==> forall j :: 0 <= j < |values| ==> values[j].number != number
  {
    if values == [] then None
    else if values[0].number == number then Some(0)
    else match FirstWithNumber(values[1..], number)
      case None => None
      case Some(k) => Some(k + 1)
  }

  /** The card after `Punch(number)`: the first square holding `number` is marked if it was Invalid. */
  function Punched(values: seq<Cell>, number: int): seq<Cell> {
    match FirstWithNumber(values, number)
    case Some(i) => if values[i].state == Invalid then values[i := values[i].(state := Valid)] else values
    case None => values
  }

  /**
   * Punching changes at most the first square holding the number, from Invalid to
   * Valid; a number on no square, or first found on a marked square, changes nothing.
   */
  lemma PunchedChanges(values: seq<Cell>, number: int)
    ensures |Punched(values, number)| == |values|
    ensures forall j :: 0 <= j < |values| ==> Punched(values, number)[j].number == values[j].number
    ensures forall j :: 0 <= j < |values| && Marked(values[j]) ==> Punched(values, number)[j] == values[j]
    ensures forall j :: 0 <= j < |values| && Punched(values, number)[j] != values[j] ==>
              FirstWithNumber(values, number) == Some(j) && values[j].state == Invalid
              && Punched(values, number)[j].state == Valid
    ensures (forall j :: 0 <= j < |values| ==> values[j].number != number) ==> Punched(values, number) == values
  {
  }

  /** Punching the same number twice is the same as punching it once. */
  lemma PunchIdempotent(values: seq<Cell>, number: int)
    ensures Punched(Punched(values, number), number) == Punched(values, number)
  {
    var once := Punched(values, number);
    PunchedChanges(values, number);
    match FirstWithNumber(values, number)
    case None =>
    case Some(i) =>
      assert FirstWithNumber(once, number) == Some(i) by {
        var r := FirstWithNumber(once, number);
        assert r.Some? && r.value == i;
      }
  }

  /** A punch never takes a bingo away. */
  lemma PunchKeepsBingo(s: Shape, values: seq<Cell>, number: int)
    requires |values| == s.Count() && HasBingo(s, values)
    ensures HasBingo(s, Punched(values, number))
  {
    PunchedChanges(values, number);
    BingoMonotone(s, values, Punched(values, number));
  }

  /** Writes `numbers[y]` into the number of square (i, y) of every row, top to bottom. */
  method WriteColumn(s: Shape, values: array<Cell>, i: int, numbers: seq<int>)
    requires values.Length == s.Count() && 0 <= i < s.columns && |numbers| >= s.rows
    modifies values
    ensures forall k :: 0 <= k < values.Length ==> values[k].state == old(values[k].state)
    ensures forall p :: s.Contains(p) && p.x != i ==> values[s.Index(p)] == old(values[s.Index(p)])
    ensures forall y :: 0 <= y < s.rows ==> values[s.Index(Pos(i, y))].number == numbers[y]
  {
    IndexInjectiveAll(s);
    for j := 0 to s.rows
      invariant forall k :: 0 <= k < values.Length ==> values[k].state == old(values[k].state)
      invariant forall p :: s.Contains(p) && !(p.x == i && p.y < j) ==> values[s.Index(p)] == old(values[s.Index(p)])
      invariant forall y :: 0 <= y < j ==> values[s.Index(Pos(i, y))].number == numbers[y]
    {
      var k := s.Index(Pos(i, j));
      values[k] := values[k].(number := numbers[j]);
    }
  }

  class Bingo {
    const cells: Array2D<Cell>
    const lottery: LotteryMachine
    const startNumber: int
    const endNumber: int
    const freeCellPosition: Pos
    var state: GameState

    /**
     * Every column window fits in 32 bits and holds at least `Rows` numbers (a card
     * with no rows needs none): otherwise dealing fails in the source.
     */
    predicate NumberWindowsFit() {
      (forall i :: 0 <= i < cells.Columns ==>
        IsInt32(WindowLow(startNumber, endNumber, i)) && IsInt32(WindowHigh(startNumber, endNumber, i)))
      && (cells.Rows == 0 || cells.Rows <= endNumber - startNumber + 1 <= Int32Max)
    }

    ghost predicate Valid()
      reads this, cells, lottery
    {
      cells.Valid() && lottery.Valid()
      && cells.Dims().Contains(freeCellPosition)
      && NumberWindowsFit()
    }

    /**
     * Wires the serialized configuration only, as the engine does before `Start`.
     * The game is usable once `Init` has run: `Init` establishes `Valid()`.
     */
    constructor (cells: Array2D<Cell>, lottery: LotteryMachine, startNumber: int, endNumber: int, freeCellPosition: Pos)
      ensures this.cells == cells && this.lottery == lottery && state == Ready
      ensures this.startNumber == startNumber && this.endNumber == endNumber
      ensures this.freeCellPosition == freeCellPosition
    {
      this.cells, this.lottery := cells, lottery;
      this.startNumber, this.endNumber := startNumber, endNumber;
      this.freeCellPosition := freeCellPosition;
      state := Ready;
    }

    /** `CanRestart` handler: the lottery may run again unless the game is cleared. */
    predicate CanRestart()
      reads this
    {
      state != Clear
    }

    /** `Punch(number)`: mark the first square holding the number, then clear the game on a bingo. */
    method Punch(number: int)
      requires Valid()
      modifies this, cells.Values
      ensures Valid()
      ensures cells.Values[..] == Punched(old(cells.Values[..]), number)
      ensures state == if HasBingo(cells.Dims(), cells.Values[..]) then Clear else old(state)
    {
      var values := cells.Values;
      var i := 0;
      while i < values.Length && values[i].number != number
        invariant 0 <= i <= values.Length
        invariant forall j :: 0 <= j < i ==> values[j].number != number
      {
        i := i + 1;
      }
      assert FirstWithNumber(values[..], number) == if i < values.Length then Some(i) else None by {
        var r := FirstWithNumber(values[..], number);
        if r.Some? {
          assert r.value == i;
        }
      }
      if i < values.Length && values[i].state == Invalid {
        values[i] := values[i].(state := CellState.Valid);
      }
      var bingo := IsBingo(cells);
      if bingo {
        state := Clear;
      }
    }

    /**
     * `AssignRandomNumber`: column by column, the first `Rows` numbers of a shuffle of
     * the column's window, written top to bottom. Square states are not touched.
     */
    method AssignRandomNumber()
      requires Valid()
      modifies cells.Values
      ensures Valid()
      ensures forall k :: 0 <= k < cells.Values.Length ==> cells.Values[k].state == old(cells.Values[k].state)
      ensures NumbersInWindows(cells.Dims(), cells.Values[..], startNumber, endNumber)
      ensures ColumnsDistinct(cells.Dims(), cells.Values[..])
    {
      var start, end := startNumber, endNumber;
      for i := 0 to cells.Columns
        invariant start == WindowLow(startNumber, endNumber, i) && end == WindowHigh(startNumber, endNumber, i)
        invariant forall k :: 0 <= k < cells.Values.Length ==> cells.Values[k].state == old(cells.Values[k].state)
        invariant DealtUpTo(cells.Dims(), cells.Values[..], i)
      {
        DealColumn(i, start, end);
        start := start + endNumber;
        end := end + endNumber;
      }
    }

    /** One pass of the dealing loop: column `i` gets the first `Rows` numbers of a shuffled window. */
    method DealColumn(i: int, start: int, end: int)
      requires Valid() && 0 <= i < cells.Columns
      requires start == WindowLow(startNumber, endNumber, i) && end == WindowHigh(startNumber, endNumber, i)
      requires DealtUpTo(cells.Dims(), cells.Values[..], i)
      modifies cells.Values
      ensures Valid()
      ensures forall k :: 0 <= k < cells.Values.Length ==> cells.Values[k].state == old(cells.Values[k].state)
      ensures DealtUpTo(cells.Dims(), cells.Values[..], i + 1)
    {
      var s, values := cells.Dims(), cells.Values;
      var cellNumbers := GetRandomIntArrayWithoutDuplicationOfLength(start, end, cells.Rows);
      var numbers := if cellNumbers.Some? then cellNumbers.value else [];
      if cellNumbers.Some? {
        SubRangeDistinct(numbers, start, end);
      }
      ghost var before := values[..];
      WriteColumn(s, values, i, numbers);
      DealtStep(s, before, values[..], i, numbers);
    }

    /** Columns `0..i-1` hold distinct numbers from their windows. */
    ghost predicate DealtUpTo(s: Shape, values: seq<Cell>, i: int)
      requires |values| == s.Count()
    {
      (forall p :: s.Contains(p) && p.x < i ==>
        WindowLow(startNumber, endNumber, p.x) <= values[s.Index(p)].number <= WindowHigh(startNumber, endNumber, p.x))
      && (forall p, q :: s.Contains(p) && s.Contains(q) && p.x == q.x < i && p.y != q.y ==>
        values[s.Index(p)].number != values[s.Index(q)].number)
    }

    lemma DealtStep(s: Shape, before: seq<Cell>, after: seq<Cell>, i: int, numbers: seq<int>)
      requires |before| == |after| == s.Count() && 0 <= i < s.columns && |numbers| >= s.rows
      requires DealtUpTo(s, before, i)
      requires forall x <- numbers :: WindowLow(startNumber, endNumber, i) <= x <= WindowHigh(startNumber, endNumber, i)
      requires forall a, b :: 0 <= a < b < |numbers| ==> numbers[a] != numbers[b]
      requires forall p :: s.Contains(p) && p.x != i ==> after[s.Index(p)] == before[s.Index(p)]
      requires forall y :: 0 <= y < s.rows ==> after[s.Index(Pos(i, y))].number == numbers[y]
      ensures DealtUpTo(s, after, i + 1)
    {
      forall p, q | s.Contains(p) && s.Contains(q) && p.x == q.x < i + 1 && p.y != q.y
        ensures after[s.Index(p)].number != after[s.Index(q)].number
      {
        if p.x == i {
          assert p == Pos(i, p.y) && q == Pos(i, q.y);
          if p.y < q.y {
            assert numbers[p.y] != numbers[q.y];
          } else {
            assert numbers[q.y] != numbers[p.y];
          }
        }
      }
      forall p | s.Contains(p) && p.x < i + 1
        ensures WindowLow(startNumber, endNumber, p.x) <= after[s.Index(p)].number <= WindowHigh(startNumber, endNumber, p.x)
      {
        if p.x == i {
          assert p == Pos(i, p.y);
          assert numbers[p.y] in numbers;
        }
      }
    }

    /** `SetFreeCell(freeCellPosition)`: the free square becomes Free. */
    method SetFreeCell()
      requires Valid()
      modifies cells.Values
      ensures Valid()
      ensures cells.Values[..] == old(cells.Values[..])[cells.Dims().Index(freeCellPosition) :=
                old(cells.Values[cells.Dims().Index(freeCellPosition)]).(state := Free)]
    {
      var k := cells.Dims().Index(freeCellPosition);
      cells.Values[k] := cells.Values[k].(state := Free);
    }

    /**
     * Entering Ready: reset the number counter, reset every square, deal the numbers,
     * mark the free square and reset the lottery machine.
     */
    method EnterReady()
      requires Valid()
      modifies this, cells, cells.Values, lottery, lottery.numbersCount
      ensures Valid() && state == Ready
      ensures cells.Values == old(cells.Values)
      ensures forall p :: cells.Dims().Contains(p) ==>
                cells.Values[cells.Dims().Index(p)].state == if p == freeCellPosition then Free else Invalid
      ensures NumbersInWindows(cells.Dims(), cells.Values[..], startNumber, endNumber)
      ensures ColumnsDistinct(cells.Dims(), cells.Values[..])
      ensures lottery.state == LotteryMachineState.Stop && lottery.numbers == Some(Range(lottery.min, lottery.max))
      ensures lottery.numbersCount.runtimeValue == lottery.numbersCount.Clamp(lottery.numbersCount.initialValue)
      ensures lottery.stoppedRegistered == old(lottery.stoppedRegistered)
      ensures lottery.canRestartRegistered == old(lottery.canRestartRegistered)
    {
      state := Ready;
      lottery.numbersCount.Init();
      cells.Init(BingoCell.Init);
      var s := cells.Dims();
      ghost var reset := cells.Values[..];
      AssignRandomNumber();
      ghost var dealt := cells.Values[..];
      SetFreeCell();
      forall p | s.Contains(p)
        ensures cells.Values[s.Index(p)].state == if p == freeCellPosition then Free else Invalid
      {
        var k := s.Index(p);
        assert !Marked(reset[k]);
        assert dealt[k].state == reset[k].state;
        if p != freeCellPosition {
          IndexInjective(s, p, freeCellPosition);
          assert cells.Values[k] == dealt[k];
        }
      }
      lottery.Init();
    }

    /** Entering Play: the lottery machine starts running. */
    method EnterPlay()
      requires Valid()
      modifies this, lottery
      ensures Valid() && state == Play && lottery.state == LotteryMachineState.Run
      ensures lottery.numbers == old(lottery.numbers) && lottery.selectedIndex == old(lottery.selectedIndex)
      ensures lottery.stoppedRegistered == old(lottery.stoppedRegistered)
      ensures lottery.canRestartRegistered == old(lottery.canRestartRegistered)
      ensures cells.Values[..] == old(cells.Values[..])
    {
      state := Play;
      lottery.state := LotteryMachineState.Run;
    }

    /** `Init`: register both handlers with the lottery machine, then enter Ready. */
    method Init()
      requires Valid()
      modifies this, cells, cells.Values, lottery, lottery.numbersCount
      ensures Valid() && state == Ready
      ensures lottery.stoppedRegistered && lottery.canRestartRegistered
      ensures cells.Values == old(cells.Values)
      ensures forall p :: cells.Dims().Contains(p) ==>
                cells.Values[cells.Dims().Index(p)].state == if p == freeCellPosition then Free else Invalid
      ensures NumbersInWindows(cells.Dims(), cells.Values[..], startNumber, endNumber)
      ensures ColumnsDistinct(cells.Dims(), cells.Values[..])
      ensures lottery.state == LotteryMachineState.Stop && lottery.numbers == Some(Range(lottery.min, lottery.max))
      ensures lottery.numbersCount.runtimeValue == lottery.numbersCount.Clamp(lottery.numbersCount.initialValue)
    {
      lottery.stoppedRegistered := true;
      lottery.canRestartRegistered := true;
      EnterReady();
    }

    /** `OnGameStartButtonPressed`. */
    method OnGameStartButtonPressed()
      requires Valid()
      modifies this, lottery
      ensures Valid() && state == Play && lottery.state == LotteryMachineState.Run
      ensures lottery.numbers == old(lottery.numbers) && lottery.selectedIndex == old(lottery.selectedIndex)
      ensures lottery.stoppedRegistered == old(lottery.stoppedRegistered)
      ensures lottery.canRestartRegistered == old(lottery.canRestartRegistered)
      ensures cells.Values[..] == old(cells.Values[..])
    {
      EnterPlay();
    }

    /** `OnRestartButtonPressed`: a new card, whatever the state. */
    method OnRestartButtonPressed()
      requires Valid()
      modifies this, cells, cells.Values, lottery, lottery.numbersCount
      ensures Valid() && state == Ready
      ensures cells.Values == old(cells.Values)
      ensures forall p :: cells.Dims().Contains(p) ==>
                cells.Values[cells.Dims().Index(p)].state == if p == freeCellPosition then Free else Invalid
      ensures NumbersInWindows(cells.Dims(), cells.Values[..], startNumber, endNumber)
      ensures ColumnsDistinct(cells.Dims(), cells.Values[..])
      ensures lottery.state == LotteryMachineState.Stop && lottery.numbers == Some(Range(lottery.min, lottery.max))
      ensures lottery.numbersCount.runtimeValue == lottery.numbersCount.Clamp(lottery.numbersCount.initialValue)
      ensures lottery.stoppedRegistered == old(lottery.stoppedRegistered)
      ensures lottery.canRestartRegistered == old(lottery.canRestartRegistered)
    {
      EnterReady();
    }

    /**
     * The lottery's stop button with this game's handlers attached: the machine asks
     * `CanRestart`; a running machine stops and its number is punched, a stopped one
     * starts running, and a machine that does not respond leaves everything alone.
     */
    method OnLotteryStopButtonPressed()
      requires Valid()
      modifies this, cells.Values, lottery, lottery.numbersCount
      ensures Valid()
      ensures lottery.numbers == old(lottery.numbers) && lottery.selectedIndex == old(lottery.selectedIndex)
      ensures !old(lottery.Responds(CanRestart())) ==>
                lottery.state == old(lottery.state) && state == old(state) && cells.Values[..] == old(cells.Values[..])
      ensures old(lottery.Responds(CanRestart())) && old(lottery.state) == LotteryMachineState.Stop ==>
                lottery.state == LotteryMachineState.Run && state == old(state) && cells.Values[..] == old(cells.Values[..])
      ensures old(lottery.Responds(CanRestart())) && old(lottery.state) == LotteryMachineState.Run ==>
                lottery.state == LotteryMachineState.Stop
                && cells.Values[..] == Punched(old(cells.Values[..]), old(lottery.numbers.value[lottery.selectedIndex]))
                && state == (if HasBingo(cells.Dims(), cells.Values[..]) then Clear else old(state))
                && lottery.numbersCount.runtimeValue == lottery.numbersCount.Clamp(old(lottery.numbersCount.runtimeValue) - 1)
      ensures old(state) == Clear ==> state == Clear && cells.Values[..] == old(cells.Values[..])
      ensures HasBingo(cells.Dims(), old(cells.Values[..])) ==> HasBingo(cells.Dims(), cells.Values[..])
    {
      ghost var before := cells.Values[..];
      var reported := lottery.OnStopButtonPressed(CanRestart());
      assert cells.Values[..] == before;
      if reported.Some? {
        Punch(reported.value);
        if HasBingo(cells.Dims(), before) {
          PunchKeepsBingo(cells.Dims(), before, reported.value);
        }
      }
    }
  }
}
