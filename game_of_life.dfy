/**
 * The Game of Life engine (`GameOfLife.GameOfLife`). Entering Ready clears the
 * board, resets the counters and brings `initialLivingCells` cells to life at random
 * positions; in Ready the player may toggle cells by clicking. In Play every update
 * interval advances one generation: first every cell records the state its living
 * neighbours give it (birth, survival, under- or overpopulation), then every cell
 * applies it, then the counters are refreshed. The thresholds are configurable; the
 * defaults give Conway's rule B3/S23.
 */
module GameOfLife {
  import opened Grid
  import opened Seqs
  import opened RandomUtility
  import opened GameVariable
  import opened LifeCell
  import opened LifeCellArray

  /** The engine's states: the `switch` over the state handles these three. */
  datatype GameState = None | Ready | Play

  const DefaultBirth: int := 3
  const DefaultUnderpopulation: int := 1
  const DefaultOverpopulation: int := 4

  /**
   * `GetNextStepCellState`: a living cell with at most `underpopulation` living
   * neighbours dies of underpopulation, else one with at least `overpopulation`
   * dies of overpopulation, else it survives; a dead cell with exactly `birth`
   * living neighbours is born, any other dead cell gets no state.
   */
  function NextStepCellState(cell: Cell, surroundingAlives: int,
                             birth: int, underpopulation: int, overpopulation: int): (r: CellState)
    ensures cell.isAlive <==> r in {Survival, Underpopulation, Overpopulation}
    ensures r == Birth <==> !cell.isAlive && surroundingAlives == birth
    ensures r == CellState.None <==> !cell.isAlive && surroundingAlives != birth
    ensures r == Underpopulation <==> cell.isAlive && surroundingAlives <= underpopulation
    ensures r == Overpopulation <==> cell.isAlive && underpopulation < surroundingAlives && overpopulation <= surroundingAlives
    ensures r == Survival <==> cell.isAlive && underpopulation < surroundingAlives < overpopulation
  {
    if cell.isAlive then
      if surroundingAlives <= underpopulation then Underpopulation
      else if surroundingAlives >= overpopulation then Overpopulation
      else Survival
    else if surroundingAlives == birth then Birth
    else CellState.None
  }

  /**
   * With the threshold ranges the settings allow (underpopulation in 0..3,
   * overpopulation in 4..8) the two death tests never both hold, so the order in
   * which they are made does not matter.
   */
  lemma DeathTestsDisjoint(n: int, underpopulation: int, overpopulation: int)
    requires 0 <= underpopulation <= 3 && 4 <= overpopulation <= 8
    ensures !(n <= underpopulation && n >= overpopulation)
  {
  }

  /** The number of living cells around `p`. */
  function LiveNeighbours(s: Shape, values: seq<Cell>, p: Pos): (n: nat)
    requires |values| == s.Count()
    ensures n <= 8
  {
    Count(Neighbours(s, values, p), LifeIs(true))
  }

  /** Only life and death matter to the neighbour count, not the recorded states. */
  lemma LiveNeighboursDependOnLife(s: Shape, v: seq<Cell>, w: seq<Cell>, p: Pos)
    requires |v| == |w| == s.Count()
    requires forall j :: 0 <= j < |v| ==> v[j].isAlive == w[j].isAlive
    ensures LiveNeighbours(s, v, p) == LiveNeighbours(s, w, p)
  {
    var nv, nw := Neighbours(s, v, p), Neighbours(s, w, p);
    forall k | 0 <= k < |nv|
      ensures LifeIs(true)(nv[k]) == LifeIs(true)(nw[k])
    {
      SurroundingShape(s, p);
    }
    CountPointwise(nv, nw, LifeIs(true));
  }

  /** Every cell with the state its neighbours on the board `values` give it. */
  function StatesComputed(s: Shape, values: seq<Cell>, birth: int, underpopulation: int, overpopulation: int): (r: seq<Cell>)
    requires |values| == s.Count()
    ensures |r| == |values|
    ensures forall k :: 0 <= k < |r| ==> r[k].isAlive == values[k].isAlive
  {
    seq(|values|, k requires 0 <= k < |values| =>
      ColumnsOfNonEmpty(s, k);
      values[k].(state := NextStepCellState(values[k], LiveNeighbours(s, values, s.ToPosition(k)),
                                            birth, underpopulation, overpopulation)))
  }

  /** Computing the state of cell `k` on a board that differs from `values` only in states gives the same result. */
  lemma StateComputedAt(s: Shape, current: seq<Cell>, values: seq<Cell>, k: int,
                        birth: int, underpopulation: int, overpopulation: int)
    requires |current| == |values| == s.Count() && 0 <= k < |values|
    requires forall j :: 0 <= j < |values| ==> current[j].isAlive == values[j].isAlive
    requires current[k] == values[k]
    ensures s.columns > 0
    ensures current[k].(state := NextStepCellState(current[k], LiveNeighbours(s, current, s.ToPosition(k)),
                                                   birth, underpopulation, overpopulation))
            == StatesComputed(s, values, birth, underpopulation, overpopulation)[k]
  {
    ColumnsOfNonEmpty(s, k);
    LiveNeighboursDependOnLife(s, current, values, s.ToPosition(k));
  }

  /** Every cell after applying its state. */
  function StatesApplied(values: seq<Cell>): (r: seq<Cell>)
    ensures |r| == |values|
  {
    seq(|values|, k requires 0 <= k < |values| => UpdateDeadOrAlive(values[k]))
  }

  /** The board one generation after `values`. */
  function NextGeneration(s: Shape, values: seq<Cell>, birth: int, underpopulation: int, overpopulation: int): (r: seq<Cell>)
    requires |values| == s.Count()
    ensures |r| == |values|
  {
    StatesApplied(StatesComputed(s, values, birth, underpopulation, overpopulation))
  }

  /**
   * The rule of one generation: a living cell stays alive exactly when its living
   * neighbours are strictly between the two population thresholds, and a dead cell
   * comes to life exactly when it has `birth` living neighbours.
   */
  lemma NextGenerationRule(s: Shape, values: seq<Cell>, birth: int, underpopulation: int, overpopulation: int, k: int)
    requires |values| == s.Count() && 0 <= k < |values|
    ensures s.columns > 0
    ensures var n := LiveNeighbours(s, values, s.ToPosition(k));
            NextGeneration(s, values, birth, underpopulation, overpopulation)[k].isAlive ==
              if values[k].isAlive then underpopulation < n < overpopulation else n == birth
  {
    ColumnsOfNonEmpty(s, k);
  }

  /** With the default thresholds a cell lives on with two or three living neighbours and is born with three. */
  lemma DefaultsAreConway(s: Shape, values: seq<Cell>, k: int)
    requires |values| == s.Count() && 0 <= k < |values|
    ensures s.columns > 0
    ensures var n := LiveNeighbours(s, values, s.ToPosition(k));
            NextGeneration(s, values, DefaultBirth, DefaultUnderpopulation, DefaultOverpopulation)[k].isAlive ==
              (n == 3 || (values[k].isAlive && n == 2))
  {
    NextGenerationRule(s, values, DefaultBirth, DefaultUnderpopulation, DefaultOverpopulation, k);
  }

  /** After a generation, the living cells are exactly those born or surviving in it. */
  lemma {:induction false} LivingAreBornOrSurvived(v: seq<Cell>)
    requires forall c <- v :: c.isAlive <==> c.state in {Birth, Survival}
    ensures Count(v, LifeIs(true)) == Count(v, HasState(Birth)) + Count(v, HasState(Survival))
  {
    if v != [] {
      LivingAreBornOrSurvived(v[..|v| - 1]);
    }
  }

  /** The dead and the living cells together are all cells. */
  lemma DeadAndLivingAreAll(v: seq<Cell>)
    ensures Count(v, LifeIs(false)) + Count(v, LifeIs(true)) == |v|
  {
    CountComplement(v, LifeIs(false), LifeIs(true));
  }

  /** Every cell of a new generation is alive exactly when its state is birth or survival. */
  lemma NextGenerationStates(s: Shape, values: seq<Cell>, birth: int, underpopulation: int, overpopulation: int)
    requires |values| == s.Count()
    ensures forall c <- NextGeneration(s, values, birth, underpopulation, overpopulation) ::
              c.isAlive <==> c.state in {Birth, Survival}
  {
    var r := NextGeneration(s, values, birth, underpopulation, overpopulation);
    forall c | c in r
      ensures c.isAlive <==> c.state in {Birth, Survival}
    {
      var k :| 0 <= k < |r| && r[k] == c;
      ColumnsOfNonEmpty(s, k);
    }
  }

  /** After a generation the living-cell count is the born count plus the survivor count. */
  lemma LivingAfterStep(s: Shape, values: seq<Cell>, birth: int, underpopulation: int, overpopulation: int)
    requires |values| == s.Count()
    ensures var r := NextGeneration(s, values, birth, underpopulation, overpopulation);
            Count(r, LifeIs(true)) == Count(r, HasState(Birth)) + Count(r, HasState(Survival))
  {
    NextGenerationStates(s, values, birth, underpopulation, overpopulation);
    LivingAreBornOrSurvived(NextGeneration(s, values, birth, underpopulation, overpopulation));
  }

  class GameOfLife {
    const cells: Array2D<Cell>
    const initialLivingCells: int
    const birth: int
    const underpopulation: int
    const overpopulation: int
    const steps: IntGameVariable
    const deadCells: IntGameVariable
    const livingCells: IntGameVariable
    const bornCells: IntGameVariable
    const survivalCells: IntGameVariable
    const underpopulationCells: IntGameVariable
    const overpopulationCells: IntGameVariable
    var state: GameState
    /** Whether the cells' `AcceptClick` handlers are registered. */
    var acceptClickRegistered: bool

    function Counters(): seq<IntGameVariable> {
      [steps, deadCells, livingCells, bornCells, survivalCells, underpopulationCells, overpopulationCells]
    }

    ghost predicate Valid()
      reads this, cells, Counters()
    {
      cells.Valid()
      && (forall i, j :: 0 <= i < j < |Counters()| ==> Counters()[i] != Counters()[j])
      && (forall g <- Counters() :: g.LimitsConsistent())
    }

    /**
     * Wires the serialized configuration only, as the engine does before `Start`.
     * The game is usable once `Init` has run: `Init` establishes `Valid()`.
     */
    constructor (cells: Array2D<Cell>, initialLivingCells: int, birth: int, underpopulation: int, overpopulation: int,
                 steps: IntGameVariable, deadCells: IntGameVariable, livingCells: IntGameVariable,
                 bornCells: IntGameVariable, survivalCells: IntGameVariable,
                 underpopulationCells: IntGameVariable, overpopulationCells: IntGameVariable)
      ensures this.cells == cells && this.initialLivingCells == initialLivingCells
      ensures this.birth == birth && this.underpopulation == underpopulation && this.overpopulation == overpopulation
      ensures Counters() == [steps, deadCells, livingCells, bornCells, survivalCells, underpopulationCells, overpopulationCells]
      ensures state == GameState.None && !acceptClickRegistered
    {
      this.cells, this.initialLivingCells := cells, initialLivingCells;
      this.birth, this.underpopulation, this.overpopulation := birth, underpopulation, overpopulation;
      this.steps, this.deadCells, this.livingCells := steps, deadCells, livingCells;
      this.bornCells, this.survivalCells := bornCells, survivalCells;
      this.underpopulationCells, this.overpopulationCells := underpopulationCells, overpopulationCells;
      state := GameState.None;
      acceptClickRegistered := false;
    }

    /** `Init`: register the click handlers, then enter Ready. */
    method Init()
      requires Valid()
      modifies this, cells, cells.Values, steps, deadCells, livingCells, bornCells, survivalCells, underpopulationCells, overpopulationCells
      ensures Valid() && state == Ready && acceptClickRegistered
      ensures cells.Values == old(cells.Values)
      ensures forall c <- cells.Values[..] :: c.state == CellState.None
      ensures initialLivingCells <= cells.Values.Length ==>
                Count(cells.Values[..], LifeIs(true)) == if initialLivingCells < 0 then 0 else initialLivingCells
      ensures initialLivingCells > cells.Values.Length ==> forall c <- cells.Values[..] :: !c.isAlive
      ensures forall g <- Counters() :: g.runtimeValue == g.Clamp(g.initialValue)
    {
      acceptClickRegistered := true;
      EnterReady();
    }

    /** The `AcceptClick` handler: clicks are taken only in Ready. */
    predicate AcceptClick()
      reads this
    {
      state == Ready
    }

    /** A click on cell `i`: it switches life and death while the game is Ready. */
    method OnCellClicked(i: int)
      requires Valid() && 0 <= i < cells.Values.Length
      modifies cells.Values
      ensures cells.Values[..] == old(cells.Values[..])[i := OnClicked(old(cells.Values[i]), acceptClickRegistered, AcceptClick())]
      ensures cells.Values[i].isAlive != old(cells.Values[i].isAlive) <==> acceptClickRegistered && state == Ready
    {
      cells.Values[i] := OnClicked(cells.Values[i], acceptClickRegistered, AcceptClick());
    }

    /**
     * Entering Ready (`OnGameStateSet`): reset every cell and counter, then bring
     * `initialLivingCells` cells to life at random positions.
     */
    method EnterReady()
      requires Valid()
      modifies this, cells, cells.Values, steps, deadCells, livingCells, bornCells, survivalCells, underpopulationCells, overpopulationCells
      ensures Valid() && state == Ready && acceptClickRegistered == old(acceptClickRegistered)
      ensures cells.Values == old(cells.Values)
      ensures forall c <- cells.Values[..] :: c.state == CellState.None
      ensures initialLivingCells <= cells.Values.Length ==>
                Count(cells.Values[..], LifeIs(true)) == if initialLivingCells < 0 then 0 else initialLivingCells
      ensures initialLivingCells > cells.Values.Length ==> forall c <- cells.Values[..] :: !c.isAlive
      ensures forall g <- Counters() :: g.runtimeValue == g.Clamp(g.initialValue)
    {
      state := Ready;
      cells.Init(LifeCell.Init);
      InitGameVariables();
      SetLivingCellsAtRandomPositions(initialLivingCells);
    }

    /** `InitGameVariables`: every counter back to its initial value. */
    method InitGameVariables()
      requires Valid()
      modifies steps, deadCells, livingCells, bornCells, survivalCells, underpopulationCells, overpopulationCells
      ensures Valid()
      ensures forall g <- Counters() :: g.runtimeValue == g.Clamp(g.initialValue)
    {
      var initializables := Counters();
      for i := 0 to |initializables|
        invariant Valid()
        invariant forall j :: 0 <= j < i ==> initializables[j].runtimeValue == initializables[j].Clamp(initializables[j].initialValue)
      {
        initializables[i].Init();
      }
    }

    /**
     * `SetLivingCellsAtRandomPositions`: abandoned when more living cells are asked
     * for than there are cells; otherwise a random selection of exactly `aliveCount`
     * cells (none when it is negative) is brought to life, and no cell dies.
     */
    method SetLivingCellsAtRandomPositions(aliveCount: int)
      requires Valid()
      modifies cells.Values
      ensures aliveCount > cells.Values.Length ==> cells.Values[..] == old(cells.Values[..])
      ensures aliveCount <= cells.Values.Length ==>
                exists isAlive: seq<bool> ::
                  |isAlive| == cells.Values.Length
                  && Count(isAlive, IsTrue) == (if aliveCount < 0 then 0 else aliveCount)
                  && cells.Values[..] == MarkWhere(old(cells.Values[..]), isAlive, BringToLife)
      ensures aliveCount <= cells.Values.Length && (forall c <- old(cells.Values[..]) :: !c.isAlive) ==>
                Count(cells.Values[..], LifeIs(true)) == if aliveCount < 0 then 0 else aliveCount
    {
      var values := cells.Values;
      var cellCount := values.Length;
      if aliveCount > cellCount {
        return;
      }
      var isAlive := GetRandomBoolArray(cellCount, aliveCount);
      ghost var before := values[..];
      for i := 0 to cellCount
        invariant forall j :: 0 <= j < i ==> values[j] == MarkWhere(before, isAlive, BringToLife)[j]
        invariant forall j :: i <= j < cellCount ==> values[j] == before[j]
      {
        if isAlive[i] {
          values[i] := BringToLife(values[i]);
        }
      }
      assert values[..] == MarkWhere(before, isAlive, BringToLife);
      if forall c <- before :: !c.isAlive {
        MarkWhereCount(before, isAlive, BringToLife, LifeIs(true));
      }
    }

    /** `OnGameStartButtonPressed`: enter Play; the board is left as it is. */
    method OnGameStartButtonPressed()
      modifies this
      ensures state == Play && acceptClickRegistered == old(acceptClickRegistered)
    {
      state := Play;
    }

    /** `OnRestartButtonPressed`: enter Ready again, laying out a new board. */
    method OnRestartButtonPressed()
      requires Valid()
      modifies this, cells, cells.Values, steps, deadCells, livingCells, bornCells, survivalCells, underpopulationCells, overpopulationCells
      ensures Valid() && state == Ready && acceptClickRegistered == old(acceptClickRegistered)
      ensures cells.Values == old(cells.Values)
      ensures forall c <- cells.Values[..] :: c.state == CellState.None
      ensures initialLivingCells <= cells.Values.Length ==>
                Count(cells.Values[..], LifeIs(true)) == if initialLivingCells < 0 then 0 else initialLivingCells
      ensures initialLivingCells > cells.Values.Length ==> forall c <- cells.Values[..] :: !c.isAlive
      ensures forall g <- Counters() :: g.runtimeValue == g.Clamp(g.initialValue)
    {
      EnterReady();
    }

    /**
     * `Update`, with the clock reduced to whether the update interval has run out:
     * in Play an elapsed interval advances one generation; nothing else changes the board.
     */
    method Update(intervalElapsed: bool)
      requires Valid()
      modifies cells.Values, steps, deadCells, livingCells, bornCells, survivalCells, underpopulationCells, overpopulationCells
      ensures Valid()
      ensures state == Play && intervalElapsed ==>
                cells.Values[..] == NextGeneration(cells.Dims(), old(cells.Values[..]), birth, underpopulation, overpopulation)
      ensures state == Play && intervalElapsed ==>
                steps.runtimeValue == steps.Clamp(old(steps.runtimeValue) + 1)
                && livingCells.runtimeValue == livingCells.Clamp(Count(cells.Values[..], LifeIs(true)))
                && deadCells.runtimeValue == deadCells.Clamp(Count(cells.Values[..], LifeIs(false)))
                && bornCells.runtimeValue == bornCells.Clamp(Count(cells.Values[..], HasState(Birth)))
                && survivalCells.runtimeValue == survivalCells.Clamp(Count(cells.Values[..], HasState(Survival)))
                && underpopulationCells.runtimeValue == underpopulationCells.Clamp(Count(cells.Values[..], HasState(Underpopulation)))
                && overpopulationCells.runtimeValue == overpopulationCells.Clamp(Count(cells.Values[..], HasState(Overpopulation)))
      ensures !(state == Play && intervalElapsed) ==> cells.Values[..] == old(cells.Values[..])
      ensures !(state == Play && intervalElapsed) ==>
                unchanged(steps, deadCells, livingCells, bornCells, survivalCells, underpopulationCells, overpopulationCells)
    {
      if state == Play && intervalElapsed {
        ToTheNextStep();
      }
    }

    /** `ToTheNextStep`: compute every cell's state, apply the states, refresh the counters. */
    method ToTheNextStep()
      requires Valid()
      modifies cells.Values, steps, deadCells, livingCells, bornCells, survivalCells, underpopulationCells, overpopulationCells
      ensures Valid()
      ensures cells.Values[..] == NextGeneration(cells.Dims(), old(cells.Values[..]), birth, underpopulation, overpopulation)
      ensures steps.runtimeValue == steps.Clamp(old(steps.runtimeValue) + 1)
      ensures livingCells.runtimeValue == livingCells.Clamp(Count(cells.Values[..], LifeIs(true)))
      ensures deadCells.runtimeValue == deadCells.Clamp(Count(cells.Values[..], LifeIs(false)))
      ensures bornCells.runtimeValue == bornCells.Clamp(Count(cells.Values[..], HasState(Birth)))
      ensures survivalCells.runtimeValue == survivalCells.Clamp(Count(cells.Values[..], HasState(Survival)))
      ensures underpopulationCells.runtimeValue == underpopulationCells.Clamp(Count(cells.Values[..], HasState(Underpopulation)))
      ensures overpopulationCells.runtimeValue == overpopulationCells.Clamp(Count(cells.Values[..], HasState(Overpopulation)))
    {
      UpdateCellsState();
      UpdateCellsDeadOrAlive();
      UpdateGameVariables();
    }

    /** `CountSurroundingAlives`: the number of living neighbours of `position`. */
    method CountSurroundingAlives(position: Pos) returns (livings: int)
      requires Valid()
      ensures livings == LiveNeighbours(cells.Dims(), cells.Values[..], position)
      ensures 0 <= livings <= 8
    {
      var surroundingCells := GetSurroundingValues(cells, position, true);
      livings := |surroundingCells|;
    }

    /**
     * `UpdateCellsState`: give every cell, in array order, the state its neighbours
     * give it. Only states are written, so the cells already visited count their
     * old life, and the result is the same as computing every state on the old board.
     */
    method UpdateCellsState()
      requires Valid()
      modifies cells.Values
      ensures cells.Values[..] == StatesComputed(cells.Dims(), old(cells.Values[..]), birth, underpopulation, overpopulation)
    {
      var values := cells.Values;
      var s := cells.Dims();
      ghost var before := values[..];
      ghost var target := StatesComputed(s, before, birth, underpopulation, overpopulation);
      for k := 0 to values.Length
        invariant forall j :: 0 <= j < k ==> values[j] == target[j]
        invariant forall j :: k <= j < values.Length ==> values[j] == before[j]
      {
        UpdateCellState(k, before);
      }
      assert values[..] == target;
    }

    /** One turn of `UpdateCellsState`: cell `k` gets the state its neighbours give it. */
    method UpdateCellState(k: int, ghost before: seq<Cell>)
      requires Valid() && 0 <= k < cells.Values.Length && |before| == cells.Values.Length
      requires forall j :: 0 <= j < |before| ==> cells.Values[j].isAlive == before[j].isAlive
      requires cells.Values[k] == before[k]
      modifies cells.Values
      ensures cells.Values[..] ==
                old(cells.Values[..])[k := StatesComputed(cells.Dims(), before, birth, underpopulation, overpopulation)[k]]
    {
      var s := cells.Dims();
      ColumnsOfNonEmpty(s, k);
      var aliveCount := CountSurroundingAlives(s.ToPosition(k));
      StateComputedAt(s, cells.Values[..], before, k, birth, underpopulation, overpopulation);
      cells.Values[k] := cells.Values[k].(state := NextStepCellState(cells.Values[k], aliveCount, birth, underpopulation, overpopulation));
    }

    /** `UpdateCellsDeadOrAlive`: every cell applies its state. */
    method UpdateCellsDeadOrAlive()
      requires Valid()
      modifies cells.Values
      ensures cells.Values[..] == StatesApplied(old(cells.Values[..]))
    {
      var values := cells.Values;
      ghost var before := values[..];
      for k := 0 to values.Length
        invariant forall j :: 0 <= j < k ==> values[j] == UpdateDeadOrAlive(before[j])
        invariant forall j :: k <= j < values.Length ==> values[j] == before[j]
      {
        values[k] := UpdateDeadOrAlive(values[k]);
      }
      assert values[..] == StatesApplied(before);
    }

    /** `UpdateGameVariables`: one more step, and each counter set to the number of cells it counts. */
    method UpdateGameVariables()
      requires Valid()
      modifies steps, deadCells, livingCells, bornCells, survivalCells, underpopulationCells, overpopulationCells
      ensures Valid()
      ensures steps.runtimeValue == steps.Clamp(old(steps.runtimeValue) + 1)
      ensures livingCells.runtimeValue == livingCells.Clamp(Count(cells.Values[..], LifeIs(true)))
      ensures deadCells.runtimeValue == deadCells.Clamp(Count(cells.Values[..], LifeIs(false)))
      ensures bornCells.runtimeValue == bornCells.Clamp(Count(cells.Values[..], HasState(Birth)))
      ensures survivalCells.runtimeValue == survivalCells.Clamp(Count(cells.Values[..], HasState(Survival)))
      ensures underpopulationCells.runtimeValue == underpopulationCells.Clamp(Count(cells.Values[..], HasState(Underpopulation)))
      ensures overpopulationCells.runtimeValue == overpopulationCells.Clamp(Count(cells.Values[..], HasState(Overpopulation)))
    {
      var values := cells.Values[..];
      ghost var cs := Counters();
      assert cs[0] == steps && cs[1] == deadCells && cs[2] == livingCells && cs[3] == bornCells
          && cs[4] == survivalCells && cs[5] == underpopulationCells && cs[6] == overpopulationCells;
      steps.SetRuntimeValue(steps.runtimeValue + 1);
      deadCells.SetRuntimeValue(Count(values, LifeIs(false)));
      livingCells.SetRuntimeValue(Count(values, LifeIs(true)));
      bornCells.SetRuntimeValue(Count(values, HasState(Birth)));
      survivalCells.SetRuntimeValue(Count(values, HasState(Survival)));
      underpopulationCells.SetRuntimeValue(Count(values, HasState(Underpopulation)));
      overpopulationCells.SetRuntimeValue(Count(values, HasState(Overpopulation)));
    }
  }
}
