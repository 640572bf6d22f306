/**
 * The bingo lottery machine (`Bingo.LotteryMachine`): a list of the numbers
 * `min..max` and a cursor that cycles through it while the machine runs. Pressing
 * the stop button starts a stopped machine, or stops a running one and reports the
 * number under the cursor. The reported number stays in the list, so the same
 * number can be drawn again.
 */
module BingoLottery {
  import opened Wrappers
  import opened Grid
  import opened RandomUtility
  import opened GameVariable

  datatype LotteryMachineState = Stop | Run

  /** The cursor after `i` in a list of `n` numbers: the next index, wrapping to 0 after the last. */
  function NextIndex(i: int, n: int): (r: int)
    requires 0 <= i < n
    ensures 0 <= r < n
    ensures r == (i + 1) % n
  {
    if i == n - 1 || n == 1 then 0 else i + 1
  }

  /** The cursor after `k` updates. */
  function Advance(i: int, n: int, k: nat): (r: int)
    requires 0 <= i < n
    ensures 0 <= r < n
  {
    if k == 0 then i else NextIndex(Advance(i, n, k - 1), n)
  }

  lemma ModSucc(x: int, n: int)
    requires n > 0
    ensures (x % n + 1) % n == (x + 1) % n
  {
    var q, r := x / n, x % n;
    assert x == q * n + r;
    if r + 1 < n {
      DivModUnique(x + 1, n, q, r + 1);
      DivModUnique(r + 1, n, 0, r + 1);
    } else {
      assert x + 1 == (q + 1) * n + 0;
      DivModUnique(x + 1, n, q + 1, 0);
      DivModUnique(r + 1, n, 1, 0);
    }
  }

  /** After `k` updates the cursor has moved `k` places round the list. */
  lemma {:induction false} AdvanceCycles(i: int, n: int, k: nat)
    requires 0 <= i < n
    ensures Advance(i, n, k) == (i + k) % n
  {
    if k == 0 {
      DivModUnique(i, n, 0, i);
    } else {
      AdvanceCycles(i, n, k - 1);
      ModSucc(i + k - 1, n);
    }
  }

  /** While the machine runs, every number of the list comes under the cursor within `n` updates. */
  lemma EveryIndexReached(i: int, n: int, j: int)
    requires 0 <= i < n && 0 <= j < n
    ensures var k := if i <= j then j - i else n - i + j; k < n && Advance(i, n, k) == j
  {
    var k := if i <= j then j - i else n - i + j;
    AdvanceCycles(i, n, k);
    if i <= j {
      DivModUnique(i + k, n, 0, j);
    } else {
      DivModUnique(i + k, n, 1, j);
    }
  }

  class LotteryMachine {
    const min: int
    const max: int
    /** `NumbersCount`: how many numbers are left to draw, as shown to the player. */
    const numbersCount: IntGameVariable
    var state: LotteryMachineState
    /** `Numbers`: absent until the first `Init`. */
    var numbers: Option<seq<int>>
    var selectedIndex: int
    /** Whether the `Stopped` and `CanRestart` handlers are registered. */
    var stoppedRegistered: bool
    var canRestartRegistered: bool

    /**
     * The list, once built, is always `min..max`, and the cursor is inside it
     * (it starts at 0 before there is a list).
     */
    ghost predicate Valid()
      reads this
    {
      IsInt32(min) && IsInt32(max) && max < Int32Max
      && numbersCount.LimitsConsistent()
      && (numbers.Some? ==> numbers.value == Range(min, max))
      && 0 <= selectedIndex
      && (selectedIndex == 0 || (numbers.Some? && selectedIndex < |numbers.value|))
    }

    constructor (min: int, max: int, numbersCount: IntGameVariable)
      requires IsInt32(min) && IsInt32(max) && max < Int32Max
      requires numbersCount.LimitsConsistent()
      ensures Valid()
      ensures this.min == min && this.max == max && this.numbersCount == numbersCount
      ensures state == Stop && numbers == None && selectedIndex == 0
      ensures !stoppedRegistered && !canRestartRegistered
    {
      this.min, this.max, this.numbersCount := min, max, numbersCount;
      state := Stop;
      numbers := None;
      selectedIndex := 0;
      stoppedRegistered, canRestartRegistered := false, false;
    }

    /** `Init`: stop and rebuild the list `min..max` in ascending order; the cursor is kept. */
    method Init()
      requires Valid()
      modifies this
      ensures Valid()
      ensures state == Stop && numbers == Some(Range(min, max))
      ensures selectedIndex == old(selectedIndex)
      ensures stoppedRegistered == old(stoppedRegistered) && canRestartRegistered == old(canRestartRegistered)
    {
      state := Stop;
      var list := [];
      var i := min;
      while i <= max
        invariant min <= i <= max + 1 || (max < min && i == min)
        invariant list == Range(min, i - 1)
        decreases max - i
      {
        assert Range(min, i) == Range(min, i - 1) + [i];
        list := list + [i];
        i := i + 1;
      }
      numbers := Some(list);
    }

    /** `UpdateSelecetedIndex`: advance the cursor round a non-empty list. */
    method UpdateSelecetedIndex()
      requires Valid()
      modifies this
      ensures Valid()
      ensures numbers == old(numbers) && state == old(state)
      ensures stoppedRegistered == old(stoppedRegistered) && canRestartRegistered == old(canRestartRegistered)
      ensures selectedIndex == if numbers.None? || |numbers.value| == 0 then old(selectedIndex)
                               else NextIndex(old(selectedIndex), |numbers.value|)
    {
      if numbers.None? || |numbers.value| == 0 {
        return;
      }
      if selectedIndex == |numbers.value| - 1 || |numbers.value| == 1 {
        selectedIndex := 0;
      } else {
        selectedIndex := selectedIndex + 1;
      }
    }

    /** The button does anything at all: a non-empty list, both handlers, and restarting allowed. */
    predicate Responds(canRestart: bool)
      reads this
    {
      numbers.Some? && |numbers.value| > 0 && stoppedRegistered && canRestartRegistered && canRestart
    }

    /**
     * `OnStopButtonPressed`, given the answer of the `CanRestart` handler. A stopped
     * machine starts running; a running one stops, reports the number under the
     * cursor to the `Stopped` handler and counts one number fewer. The list is not
     * shortened.
     */
    method OnStopButtonPressed(canRestart: bool) returns (reported: Option<int>)
      requires Valid()
      modifies this, numbersCount
      ensures Valid()
      ensures numbers == old(numbers) && selectedIndex == old(selectedIndex)
      ensures stoppedRegistered == old(stoppedRegistered) && canRestartRegistered == old(canRestartRegistered)
      ensures !old(Responds(canRestart)) ==>
                state == old(state) && reported == None && numbersCount.runtimeValue == old(numbersCount.runtimeValue)
      ensures old(Responds(canRestart)) && old(state) == Stop ==>
                state == Run && reported == None && numbersCount.runtimeValue == old(numbersCount.runtimeValue)
      ensures old(Responds(canRestart)) && old(state) == Run ==>
                state == Stop && reported == Some(numbers.value[selectedIndex])
                && numbersCount.runtimeValue == numbersCount.Clamp(old(numbersCount.runtimeValue) - 1)
    {
      reported := None;
      if numbers.None? || |numbers.value| == 0 {
        return;
      }
      if !stoppedRegistered || !canRestartRegistered {
        return;
      }
      if !canRestart {
        return;
      }
      if state == Stop {
        state := Run;
        return;
      }
      state := Stop;
      var selectedNumber := numbers.value[selectedIndex];
      reported := Some(selectedNumber);
      numbersCount.SetRuntimeValue(numbersCount.runtimeValue - 1);
    }
  }
}
