/**
 * The move rules of Reversi (`Reversi.Reversi`'s queries), over the colours of the
 * squares. From a square, every adjacent opponent stone gives a direction; the
 * opponent run starting there "sandwiches" when it ends at a stone of the turn
 * player. A stone may be put on an empty square with at least one sandwich, and
 * putting it gains the square itself plus every stone of those runs.
 */
module ReversiRules {
  import opened Grid
  import opened Seqs
  import opened ReversiCell

  /** The colours of the squares. */
  function States(v: seq<Cell>): (b: seq<CellState>)
    ensures |b| == |v| && forall k :: 0 <= k < |v| ==> b[k] == v[k].state
  {
    seq(|v|, k requires 0 <= k < |v| => v[k].state)
  }

  /** The stone counts of the squares `v`, square by square. */
  function StoneCounts(v: seq<Cell>): (n: seq<int>)
    ensures |n| == |v| && forall k :: 0 <= k < |v| ==> n[k] == v[k].stoneCount
  {
    seq(|v|, k requires 0 <= k < |v| => v[k].stoneCount)
  }

  function Is(st: CellState): CellState -> bool {
    (x: CellState) => x == st
  }

  /** A step to one of the eight neighbours. */
  predicate IsDirection(d: Pos) {
    d != Pos(0, 0) && -1 <= d.x <= 1 && -1 <= d.y <= 1
  }

  /** The step from `p` to an adjacent square is a direction. */
  lemma AdjacentIsDirection(q: Pos, p: Pos)
    requires Adjacent(q, p)
    ensures IsDirection(q.Minus(p)) && q == p.Plus(q.Minus(p))
  {
  }

  /** The `j`-th square from `c` in direction `d`. */
  function Ray(c: Pos, d: Pos, j: int): Pos {
    Pos(c.x + j * d.x, c.y + j * d.y)
  }

  /** How many squares a walk from `c` in direction `d` can still take: the termination measure. */
  function Room(s: Shape, c: Pos, d: Pos): nat {
    var r := if d.x > 0 then s.columns - c.x
             else if d.x < 0 then c.x + 1
             else if d.y > 0 then s.rows - c.y
             else c.y + 1;
    if r < 0 then 0 else r
  }

  /** The square holds `st` (`st` is a colour or `Empty`). */
  function Holds(s: Shape, b: seq<CellState>, st: CellState): Pos -> bool {
    (q: Pos) => s.Contains(q) && 0 <= s.Index(q) < |b| && b[s.Index(q)] == st
  }

  /**
   * `GetSurroundingNonTurnPlayersStones` as positions: the neighbours of `p`
   * holding `st`, in neighbour order.
   */
  function StonesAround(s: Shape, b: seq<CellState>, p: Pos, st: CellState): (r: seq<Pos>)
    requires |b| == s.Count()
    ensures |r| <= 8
    ensures forall q <- r :: s.Contains(q) && Adjacent(q, p) && IsDirection(q.Minus(p)) && b[s.Index(q)] == st
  {
    SurroundingShape(s, p);
    forall q <- Surrounding(s, p)
      ensures s.Contains(q) && Adjacent(q, p) && IsDirection(q.Minus(p))
    {
      SurroundingComplete(s, p, q);
      AdjacentIsDirection(q, p);
    }
    Filter(Surrounding(s, p), Holds(s, b, st))
  }

  /** A selection from a list without repeats has no repeats. */
  lemma {:induction false} FilterDistinct<T>(r: seq<T>, f: T -> bool)
    requires Distinct(r)
    ensures Distinct(Filter(r, f))
  {
    if r != [] {
      var n := |r| - 1;
      FilterDistinct(r[..n], f);
      assert r[n] !in r[..n];
    }
  }

  /** The stones around `p` are distinct squares, each a step away in its own direction. */
  lemma StonesAroundDistinct(s: Shape, b: seq<CellState>, p: Pos, st: CellState)
    requires |b| == s.Count()
    ensures Distinct(StonesAround(s, b, p, st))
  {
    SurroundingShape(s, p);
    FilterDistinct(Surrounding(s, p), Holds(s, b, st));
  }

  /** The engine's stone positions are where the board's `GetSurroundingValues(position, state)` finds its cells. */
  lemma StonesAroundAreFilteredNeighbours(s: Shape, v: seq<Cell>, p: Pos, st: CellState)
    requires |v| == s.Count()
    ensures ValuesAt(s, v, StonesAround(s, States(v), p, st)) == Filter(Neighbours(s, v, p), HasState(st))
  {
    var ps := Surrounding(s, p);
    forall q <- ps
      ensures s.Contains(q)
    {
      SurroundingComplete(s, p, q);
    }
    ValuesAtFilter(s, v, ps, Holds(s, States(v), st), HasState(st));
  }

  lemma {:induction false} ValuesAtFilter(s: Shape, v: seq<Cell>, ps: seq<Pos>, g: Pos -> bool, f: Cell -> bool)
    requires |v| == s.Count()
    requires forall q <- ps :: s.Contains(q) && g(q) == f(v[s.Index(q)])
    ensures forall q <- Filter(ps, g) :: s.Contains(q)
    ensures ValuesAt(s, v, Filter(ps, g)) == Filter(ValuesAt(s, v, ps), f)
  {
    if ps != [] {
      var n := |ps| - 1;
      var q := ps[n];
      ValuesAtFilter(s, v, ps[..n], g, f);
      assert ValuesAt(s, v, ps)[..n] == ValuesAt(s, v, ps[..n]);
      var tail := if g(q) then [q] else [];
      assert Filter(ps, g) == Filter(ps[..n], g) + tail;
      ValuesAtAppend(s, v, Filter(ps[..n], g), tail);
    }
  }

  lemma ValuesAtAppend<T>(s: Shape, v: seq<T>, ps: seq<Pos>, qs: seq<Pos>)
    requires |v| == s.Count()
    requires forall q <- ps :: s.Contains(q)
    requires forall q <- qs :: s.Contains(q)
    ensures ValuesAt(s, v, ps + qs) == ValuesAt(s, v, ps) + ValuesAt(s, v, qs)
  {
  }

  // ---------------------------------------------------------------------------
  // Walking along a direction

  lemma RayShift(c: Pos, d: Pos, j: int)
    ensures Ray(c.Plus(d), d, j) == Ray(c, d, j + 1)
  {
    assert (j + 1) * d.x == j * d.x + d.x;
    assert (j + 1) * d.y == j * d.y + d.y;
  }

  /** `j` times a component of a direction, without multiplication. */
  lemma Scale(j: int, u: int)
    requires -1 <= u <= 1
    ensures j * u == if u == 1 then j else if u == -1 then -j else 0
  {
  }

  /** A walk never comes back to its start. */
  lemma RayLeaves(c: Pos, d: Pos, k: int)
    requires IsDirection(d) && k >= 1
    ensures Ray(c, d, k) != c
  {
    Scale(k, d.x);
    Scale(k, d.y);
  }

  /** Walks from one square in two different directions never meet. */
  lemma RaysDisjoint(p: Pos, d1: Pos, d2: Pos, i: int, j: int)
    requires IsDirection(d1) && IsDirection(d2) && d1 != d2 && i >= 1 && j >= 1
    ensures Ray(p, d1, i) != Ray(p, d2, j)
  {
    Scale(i, d1.x);
    Scale(i, d1.y);
    Scale(j, d2.x);
    Scale(j, d2.y);
  }

  /**
   * `ExsistsTurnPlyersStone(cell, direction)`: walking on from `c`, the next square
   * holds the turn player's stone, or holds an opponent stone from which the walk
   * continues; the edge of the board or an empty square ends it unsuccessfully.
   */
  function ExsistsTurnPlyersStone(s: Shape, b: seq<CellState>, c: Pos, d: Pos, turn: CellState, nonTurn: CellState): bool
    requires |b| == s.Count() && IsDirection(d)
    decreases Room(s, c, d)
  {
    var next := c.Plus(d);
    if s.IsOutOfRange(next.x, next.y) then false
    else if b[s.Index(next)] == turn then true
    else if b[s.Index(next)] == nonTurn then ExsistsTurnPlyersStone(s, b, next, d, turn, nonTurn)
    else false
  }

  /**
   * `CountStonesCanBeTurnedOver(cell, direction, count)`: `count` plus the length of
   * the opponent run that starts at `c` (which counts itself) in direction `d`.
   */
  function CountStonesCanBeTurnedOver(s: Shape, b: seq<CellState>, c: Pos, d: Pos, nonTurn: CellState, count: int): (r: int)
    requires |b| == s.Count() && IsDirection(d)
    ensures r > count
    decreases Room(s, c, d)
  {
    var count' := count + 1;
    var next := c.Plus(d);
    if !s.IsOutOfRange(next.x, next.y) && b[s.Index(next)] == nonTurn then
      CountStonesCanBeTurnedOver(s, b, next, d, nonTurn, count')
    else
      count'
  }

  /** The length of the opponent run from `c`: the count with the default start of 0. */
  function RunLength(s: Shape, b: seq<CellState>, c: Pos, d: Pos, nonTurn: CellState): (n: int)
    requires |b| == s.Count() && IsDirection(d)
    ensures n >= 1
  {
    CountStonesCanBeTurnedOver(s, b, c, d, nonTurn, 0)
  }

  /** The accumulator only shifts the result. */
  lemma {:induction false} CountAccumulates(s: Shape, b: seq<CellState>, c: Pos, d: Pos, nonTurn: CellState, count: int)
    requires |b| == s.Count() && IsDirection(d)
    ensures CountStonesCanBeTurnedOver(s, b, c, d, nonTurn, count) == count + RunLength(s, b, c, d, nonTurn)
    decreases Room(s, c, d)
  {
    var next := c.Plus(d);
    if !s.IsOutOfRange(next.x, next.y) && b[s.Index(next)] == nonTurn {
      CountAccumulates(s, b, next, d, nonTurn, count + 1);
      CountAccumulates(s, b, next, d, nonTurn, 1);
    }
  }

  /**
   * The run length is exact: the squares 1 .. n-1 after `c` hold opponent stones and
   * the `n`-th does not (it is off the board or holds something else).
   */
  lemma {:induction false} RunShape(s: Shape, b: seq<CellState>, c: Pos, d: Pos, nonTurn: CellState)
    requires |b| == s.Count() && IsDirection(d)
    ensures var n := RunLength(s, b, c, d, nonTurn);
      (forall j :: 1 <= j < n ==> s.Contains(Ray(c, d, j)) && b[s.Index(Ray(c, d, j))] == nonTurn)
      && !(s.Contains(Ray(c, d, n)) && b[s.Index(Ray(c, d, n))] == nonTurn)
    decreases Room(s, c, d)
  {
    var next := c.Plus(d);
    RayShift(c, d, 0);
    if !s.IsOutOfRange(next.x, next.y) && b[s.Index(next)] == nonTurn {
      CountAccumulates(s, b, next, d, nonTurn, 1);
      RunShape(s, b, next, d, nonTurn);
      var n' := RunLength(s, b, next, d, nonTurn);
      forall j | 1 <= j < n' + 1
        ensures s.Contains(Ray(c, d, j)) && b[s.Index(Ray(c, d, j))] == nonTurn
      {
        RayShift(c, d, j - 1);
      }
      RayShift(c, d, n');
    }
  }

  /**
   * A sandwich exists exactly when the opponent run from `c` ends at a stone of the
   * turn player.
   */
  lemma {:induction false} SandwichIsRunEndingAtTurn(s: Shape, b: seq<CellState>, c: Pos, d: Pos, turn: CellState, nonTurn: CellState)
    requires |b| == s.Count() && IsDirection(d) && turn != nonTurn
    ensures var n := RunLength(s, b, c, d, nonTurn);
      ExsistsTurnPlyersStone(s, b, c, d, turn, nonTurn) <==>
      s.Contains(Ray(c, d, n)) && b[s.Index(Ray(c, d, n))] == turn
    decreases Room(s, c, d)
  {
    var next := c.Plus(d);
    RayShift(c, d, 0);
    if !s.IsOutOfRange(next.x, next.y) && b[s.Index(next)] == nonTurn {
      CountAccumulates(s, b, next, d, nonTurn, 1);
      SandwichIsRunEndingAtTurn(s, b, next, d, turn, nonTurn);
      RayShift(c, d, RunLength(s, b, next, d, nonTurn));
    }
  }

  /** `b` and `b'` hold the same on every square after `c` in direction `d`. */
  ghost predicate AgreeOnRay(s: Shape, b: seq<CellState>, b': seq<CellState>, c: Pos, d: Pos)
    requires |b| == |b'| == s.Count()
  {
    forall j :: 1 <= j && s.Contains(Ray(c, d, j)) ==> b[s.Index(Ray(c, d, j))] == b'[s.Index(Ray(c, d, j))]
  }

  lemma AgreeOnRayShift(s: Shape, b: seq<CellState>, b': seq<CellState>, c: Pos, d: Pos)
    requires |b| == |b'| == s.Count() && AgreeOnRay(s, b, b', c, d)
    ensures AgreeOnRay(s, b, b', c.Plus(d), d)
  {
    forall j | 1 <= j && s.Contains(Ray(c.Plus(d), d, j))
      ensures b[s.Index(Ray(c.Plus(d), d, j))] == b'[s.Index(Ray(c.Plus(d), d, j))]
    {
      RayShift(c, d, j);
    }
  }

  /** The sandwich test and the run length look only at the squares ahead of `c`. */
  lemma {:induction false} WalkReadsOnlyRay(s: Shape, b: seq<CellState>, b': seq<CellState>, c: Pos, d: Pos,
                                            turn: CellState, nonTurn: CellState, count: int)
    requires |b| == |b'| == s.Count() && IsDirection(d) && AgreeOnRay(s, b, b', c, d)
    ensures ExsistsTurnPlyersStone(s, b, c, d, turn, nonTurn) == ExsistsTurnPlyersStone(s, b', c, d, turn, nonTurn)
    ensures CountStonesCanBeTurnedOver(s, b, c, d, nonTurn, count) == CountStonesCanBeTurnedOver(s, b', c, d, nonTurn, count)
    decreases Room(s, c, d)
  {
    var next := c.Plus(d);
    RayShift(c, d, 0);
    if !s.IsOutOfRange(next.x, next.y) {
      AgreeOnRayShift(s, b, b', c, d);
      WalkReadsOnlyRay(s, b, b', next, d, turn, nonTurn, count + 1);
    }
  }

  // ---------------------------------------------------------------------------
  // Turning stones over

  /**
   * `TurnOverStones(cell, direction)`: turn `c` over, then go on while the next square
   * holds an opponent stone.
   */
  function TurnOverStones(s: Shape, b: seq<CellState>, c: Pos, d: Pos, nonTurn: CellState): (r: seq<CellState>)
    requires |b| == s.Count() && IsDirection(d) && s.Contains(c)
    ensures |r| == |b|
    decreases Room(s, c, d)
  {
    var b' := b[s.Index(c) := Flipped(b[s.Index(c)])];
    var next := c.Plus(d);
    if !s.IsOutOfRange(next.x, next.y) && b'[s.Index(next)] == nonTurn then
      TurnOverStones(s, b', next, d, nonTurn)
    else
      b'
  }

  /** Turning over from `c` leaves every square off the walk from `c` alone. */
  lemma {:induction false} TurnOverStonesFrame(s: Shape, b: seq<CellState>, c: Pos, d: Pos, nonTurn: CellState, q: Pos)
    requires |b| == s.Count() && IsDirection(d) && s.Contains(c) && s.Contains(q)
    requires forall j :: 0 <= j ==> Ray(c, d, j) != q
    ensures TurnOverStones(s, b, c, d, nonTurn)[s.Index(q)] == b[s.Index(q)]
    decreases Room(s, c, d)
  {
    assert Ray(c, d, 0) == c;
    IndexInjective(s, c, q);
    var b' := b[s.Index(c) := Flipped(b[s.Index(c)])];
    var next := c.Plus(d);
    if !s.IsOutOfRange(next.x, next.y) && b'[s.Index(next)] == nonTurn {
      forall j | 0 <= j
        ensures Ray(next, d, j) != q
      {
        RayShift(c, d, j);
      }
      TurnOverStonesFrame(s, b', next, d, nonTurn, q);
    }
  }

  /** Turning over from an opponent stone `c` changes only opponent stones, each to the other colour. */
  lemma {:induction false} TurnOverStonesChanges(s: Shape, b: seq<CellState>, c: Pos, d: Pos, nonTurn: CellState)
    requires |b| == s.Count() && IsDirection(d) && s.Contains(c)
    requires nonTurn != Empty && b[s.Index(c)] == nonTurn
    ensures var r := TurnOverStones(s, b, c, d, nonTurn);
      forall i :: 0 <= i < |b| ==> r[i] == b[i] || (b[i] == nonTurn && r[i] == Flipped(nonTurn))
    decreases Room(s, c, d)
  {
    var b' := b[s.Index(c) := Flipped(nonTurn)];
    var next := c.Plus(d);
    if !s.IsOutOfRange(next.x, next.y) && b'[s.Index(next)] == nonTurn {
      TurnOverStonesChanges(s, b', next, d, nonTurn);
    }
  }

  /** Turning over from an opponent stone `c` gives every square of the run that starts there the other colour. */
  lemma {:induction false} TurnOverStonesFlipsRun(s: Shape, b: seq<CellState>, c: Pos, d: Pos, nonTurn: CellState)
    requires |b| == s.Count() && IsDirection(d) && s.Contains(c)
    requires nonTurn != Empty && b[s.Index(c)] == nonTurn
    ensures var r := TurnOverStones(s, b, c, d, nonTurn);
      forall j :: 0 <= j < RunLength(s, b, c, d, nonTurn) ==>
        s.Contains(Ray(c, d, j)) && r[s.Index(Ray(c, d, j))] == Flipped(nonTurn)
    decreases Room(s, c, d)
  {
    var turn := Flipped(nonTurn);
    var b' := b[s.Index(c) := turn];
    var next := c.Plus(d);
    RayShift(c, d, 0);
    assert Ray(c, d, 0) == c;
    if !s.IsOutOfRange(next.x, next.y) {
      RayLeaves(c, d, 1);
      IndexInjective(s, c, next);
    }
    if !s.IsOutOfRange(next.x, next.y) && b'[s.Index(next)] == nonTurn {
      TurnOverStonesFlipsRun(s, b', next, d, nonTurn);
      TurnOverStonesChanges(s, b', next, d, nonTurn);
      CountAccumulates(s, b, next, d, nonTurn, 1);
      StartLeavesRay(s, b, c, d, turn);
      WalkReadsOnlyRay(s, b', b, next, d, turn, nonTurn, 0);
      RayShiftAll(c, d, RunLength(s, b, next, d, nonTurn));
    }
  }

  /**
   * Turning over from an opponent stone `c` moves the two tallies by the length of
   * the run that starts there.
   */
  lemma {:induction false} TurnOverStonesCounts(s: Shape, b: seq<CellState>, c: Pos, d: Pos, nonTurn: CellState)
    requires |b| == s.Count() && IsDirection(d) && s.Contains(c)
    requires nonTurn != Empty && b[s.Index(c)] == nonTurn
    ensures var r := TurnOverStones(s, b, c, d, nonTurn);
      var n := RunLength(s, b, c, d, nonTurn);
      Count(r, Is(Flipped(nonTurn))) == Count(b, Is(Flipped(nonTurn))) + n
      && Count(r, Is(nonTurn)) + n == Count(b, Is(nonTurn))
    decreases Room(s, c, d)
  {
    var turn := Flipped(nonTurn);
    var ic := s.Index(c);
    var b' := b[ic := turn];
    var next := c.Plus(d);
    CountUpdate(b, ic, turn, Is(turn));
    CountUpdate(b, ic, turn, Is(nonTurn));
    if !s.IsOutOfRange(next.x, next.y) {
      RayShift(c, d, 0);
      RayLeaves(c, d, 1);
      IndexInjective(s, c, next);
    }
    if !s.IsOutOfRange(next.x, next.y) && b'[s.Index(next)] == nonTurn {
      TurnOverStonesCounts(s, b', next, d, nonTurn);
      CountAccumulates(s, b, next, d, nonTurn, 1);
      StartLeavesRay(s, b, c, d, turn);
      WalkReadsOnlyRay(s, b', b, next, d, turn, nonTurn, 0);
    }
  }

  /** Changing the square `c` leaves the walk from the next square along `d` untouched. */
  lemma StartLeavesRay(s: Shape, b: seq<CellState>, c: Pos, d: Pos, st: CellState)
    requires |b| == s.Count() && IsDirection(d) && s.Contains(c)
    ensures AgreeOnRay(s, b[s.Index(c) := st], b, c.Plus(d), d)
  {
    var b' := b[s.Index(c) := st];
    var next := c.Plus(d);
    forall j | 1 <= j && s.Contains(Ray(next, d, j))
      ensures b'[s.Index(Ray(next, d, j))] == b[s.Index(Ray(next, d, j))]
    {
      RayShift(c, d, j);
      RayLeaves(c, d, j + 1);
      IndexInjective(s, c, Ray(next, d, j));
    }
  }

  /** The first `n` squares after `c.Plus(d)` are the squares 1 to `n` after `c`. */
  lemma RayShiftAll(c: Pos, d: Pos, n: int)
    ensures forall j :: 1 <= j < n + 1 ==> Ray(c, d, j) == Ray(c.Plus(d), d, j - 1)
  {
    forall j | 1 <= j < n + 1
      ensures Ray(c, d, j) == Ray(c.Plus(d), d, j - 1)
    {
      RayShift(c, d, j - 1);
    }
  }

  // ---------------------------------------------------------------------------
  // Sandwiches around a square

  /**
   * `TurnOverSandwichedStones` for the opponent stones `qs` around `p`, taken in
   * order: each one that starts a sandwich on the board as it stands has its run
   * turned over.
   */
  function TurnOverSandwichedStones(s: Shape, b: seq<CellState>, p: Pos, qs: seq<Pos>, turn: CellState, nonTurn: CellState): (r: seq<CellState>)
    requires |b| == s.Count()
    requires forall q <- qs :: s.Contains(q) && Adjacent(q, p)
    ensures |r| == |b|
    decreases |qs|
  {
    if qs == [] then b
    else
      var r0 := TurnOverSandwichedStones(s, b, p, qs[..|qs| - 1], turn, nonTurn);
      var q := qs[|qs| - 1];
      assert q in qs;
      AdjacentIsDirection(q, p);
      if ExsistsTurnPlyersStone(s, r0, q, q.Minus(p), turn, nonTurn) then TurnOverStones(s, r0, q, q.Minus(p), nonTurn)
      else r0
  }

  /** One more stone of `qs` extends the fold by that stone's sandwich, if any. */
  lemma SandwichStep(s: Shape, b: seq<CellState>, p: Pos, qs: seq<Pos>, i: int, turn: CellState, nonTurn: CellState)
    requires |b| == s.Count() && 0 <= i < |qs|
    requires forall q <- qs :: s.Contains(q) && Adjacent(q, p)
    ensures IsDirection(qs[i].Minus(p)) && s.Contains(qs[i])
    ensures var r0 := TurnOverSandwichedStones(s, b, p, qs[..i], turn, nonTurn);
      var q := qs[i];
      TurnOverSandwichedStones(s, b, p, qs[..i + 1], turn, nonTurn)
        == if ExsistsTurnPlyersStone(s, r0, q, q.Minus(p), turn, nonTurn) then TurnOverStones(s, r0, q, q.Minus(p), nonTurn)
           else r0
  {
    assert qs[i] in qs;
    AdjacentIsDirection(qs[i], p);
    assert qs[..i + 1][..i] == qs[..i];
  }

  /**
   * What the sandwiches through the stones `qs` around `p` gain: the summed run
   * lengths, as the loop of `UpdateStoneCount` adds them up.
   */
  function Gains(s: Shape, b: seq<CellState>, p: Pos, qs: seq<Pos>, turn: CellState, nonTurn: CellState): (n: int)
    requires |b| == s.Count()
    requires forall q <- qs :: Adjacent(q, p)
    ensures n >= 0
    decreases |qs|
  {
    if qs == [] then 0
    else
      var q := qs[|qs| - 1];
      assert q in qs;
      AdjacentIsDirection(q, p);
      Gains(s, b, p, qs[..|qs| - 1], turn, nonTurn)
      + if ExsistsTurnPlyersStone(s, b, q, q.Minus(p), turn, nonTurn)
        then CountStonesCanBeTurnedOver(s, b, q, q.Minus(p), nonTurn, 0) else 0
  }

  /** One more stone of `qs` adds its run, if it ends at a stone of the turn player. */
  lemma GainsStep(s: Shape, b: seq<CellState>, p: Pos, qs: seq<Pos>, i: int, turn: CellState, nonTurn: CellState)
    requires |b| == s.Count() && 0 <= i < |qs|
    requires forall q <- qs :: Adjacent(q, p)
    ensures IsDirection(qs[i].Minus(p))
    ensures var q := qs[i];
      Gains(s, b, p, qs[..i + 1], turn, nonTurn)
        == Gains(s, b, p, qs[..i], turn, nonTurn)
           + if ExsistsTurnPlyersStone(s, b, q, q.Minus(p), turn, nonTurn)
             then CountStonesCanBeTurnedOver(s, b, q, q.Minus(p), nonTurn, 0) else 0
  {
    assert qs[i] in qs;
    AdjacentIsDirection(qs[i], p);
    assert qs[..i + 1][..i] == qs[..i];
  }

  /** Some stone among the first `i + 1` of `qs` starts a sandwich exactly when one among the first `i` does or the next one does. */
  lemma AnySandwichStep(s: Shape, b: seq<CellState>, p: Pos, qs: seq<Pos>, i: int, turn: CellState, nonTurn: CellState)
    requires |b| == s.Count() && 0 <= i < |qs|
    requires forall q <- qs :: IsDirection(q.Minus(p))
    ensures (exists t :: 0 <= t < i + 1 && ExsistsTurnPlyersStone(s, b, qs[t], qs[t].Minus(p), turn, nonTurn))
            <==> (exists t :: 0 <= t < i && ExsistsTurnPlyersStone(s, b, qs[t], qs[t].Minus(p), turn, nonTurn))
                 || ExsistsTurnPlyersStone(s, b, qs[i], qs[i].Minus(p), turn, nonTurn)
  {
  }

  /** The turns around `p` never touch a walk from `p` in any other direction. */
  lemma {:induction false} SandwichFrame(s: Shape, b: seq<CellState>, p: Pos, qs: seq<Pos>, turn: CellState, nonTurn: CellState,
                                         d': Pos, j: int)
    requires |b| == s.Count()
    requires forall q <- qs :: s.Contains(q) && Adjacent(q, p)
    requires IsDirection(d') && forall q <- qs :: q.Minus(p) != d'
    requires j >= 1 && s.Contains(Ray(p, d', j))
    ensures TurnOverSandwichedStones(s, b, p, qs, turn, nonTurn)[s.Index(Ray(p, d', j))] == b[s.Index(Ray(p, d', j))]
    decreases |qs|
  {
    if qs != [] {
      var n := |qs| - 1;
      var r0 := TurnOverSandwichedStones(s, b, p, qs[..n], turn, nonTurn);
      SandwichFrame(s, b, p, qs[..n], turn, nonTurn, d', j);
      var q := qs[n];
      var d := q.Minus(p);
      assert q in qs;
      AdjacentIsDirection(q, p);
      if ExsistsTurnPlyersStone(s, r0, q, d, turn, nonTurn) {
        forall k | 0 <= k
          ensures Ray(q, d, k) != Ray(p, d', j)
        {
          RayShift(p, d, k);
          RaysDisjoint(p, d, d', k + 1, j);
        }
        TurnOverStonesFrame(s, r0, q, d, nonTurn, Ray(p, d', j));
      }
    }
  }

  /**
   * Turning over the sandwiches through distinct opponent stones `qs` around `p`
   * changes only opponent stones, into the turn player's colour, and moves the colour
   * counts by exactly what `Gains` adds up on the board before any stone is turned.
   */
  lemma {:induction false} SandwichEffect(s: Shape, b: seq<CellState>, p: Pos, qs: seq<Pos>, turn: CellState, nonTurn: CellState)
    requires |b| == s.Count()
    requires nonTurn != Empty && turn == Flipped(nonTurn)
    requires Distinct(qs)
    requires forall q <- qs :: s.Contains(q) && Adjacent(q, p) && b[s.Index(q)] == nonTurn
    ensures var r := TurnOverSandwichedStones(s, b, p, qs, turn, nonTurn);
      var g := Gains(s, b, p, qs, turn, nonTurn);
      (forall i :: 0 <= i < |b| ==> r[i] == b[i] || (b[i] == nonTurn && r[i] == turn))
      && Count(r, Is(turn)) == Count(b, Is(turn)) + g
      && Count(r, Is(nonTurn)) + g == Count(b, Is(nonTurn))
    decreases |qs|
  {
    if qs != [] {
      var n := |qs| - 1;
      var r0 := TurnOverSandwichedStones(s, b, p, qs[..n], turn, nonTurn);
      SandwichEffect(s, b, p, qs[..n], turn, nonTurn);
      var q := qs[n];
      var d := q.Minus(p);
      assert q in qs;
      LastRayUntouched(s, b, p, qs, turn, nonTurn);
      WalkReadsOnlyRay(s, r0, b, q, d, turn, nonTurn, 0);
      if ExsistsTurnPlyersStone(s, r0, q, d, turn, nonTurn) {
        TurnOverStonesFlipsRun(s, r0, q, d, nonTurn);
        TurnOverStonesCounts(s, r0, q, d, nonTurn);
        TurnOverStonesChanges(s, r0, q, d, nonTurn);
      }
    }
  }

  /**
   * The sandwiches through all but the last of the distinct stones `qs` leave the
   * last one, and the walk from it away from `p`, as they were.
   */
  lemma LastRayUntouched(s: Shape, b: seq<CellState>, p: Pos, qs: seq<Pos>, turn: CellState, nonTurn: CellState)
    requires |b| == s.Count() && qs != [] && Distinct(qs)
    requires forall q <- qs :: s.Contains(q) && Adjacent(q, p)
    ensures var n := |qs| - 1;
      var q := qs[n];
      var r0 := TurnOverSandwichedStones(s, b, p, qs[..n], turn, nonTurn);
      IsDirection(q.Minus(p)) && r0[s.Index(q)] == b[s.Index(q)] && AgreeOnRay(s, r0, b, q, q.Minus(p))
  {
    var n := |qs| - 1;
    var r0 := TurnOverSandwichedStones(s, b, p, qs[..n], turn, nonTurn);
    var q := qs[n];
    var d := q.Minus(p);
    assert q in qs;
    AdjacentIsDirection(q, p);
    forall q' <- qs[..n]
      ensures q'.Minus(p) != d
    {
      var t :| 0 <= t < n && qs[t] == q';
    }
    assert Ray(p, d, 1) == q;
    SandwichFrame(s, b, p, qs[..n], turn, nonTurn, d, 1);
    forall j | 1 <= j && s.Contains(Ray(q, d, j))
      ensures r0[s.Index(Ray(q, d, j))] == b[s.Index(Ray(q, d, j))]
    {
      RayShift(p, d, j);
      SandwichFrame(s, b, p, qs[..n], turn, nonTurn, d, j + 1);
    }
  }

  /** Every square after a neighbour `q` of `p`, walking away from `p`, is a square other than `p`. */
  lemma AwayFromCentre(s: Shape, b: seq<CellState>, b': seq<CellState>, p: Pos, q: Pos)
    requires |b| == |b'| == s.Count() && s.Contains(p) && Adjacent(q, p)
    requires forall i :: 0 <= i < |b| && i != s.Index(p) ==> b[i] == b'[i]
    ensures AgreeOnRay(s, b, b', q, q.Minus(p))
  {
    var d := q.Minus(p);
    AdjacentIsDirection(q, p);
    forall j | 1 <= j && s.Contains(Ray(q, d, j))
      ensures b[s.Index(Ray(q, d, j))] == b'[s.Index(Ray(q, d, j))]
    {
      RayShift(p, d, j);
      RayLeaves(p, d, j + 1);
      IndexInjective(s, p, Ray(q, d, j));
    }
  }

  /** `Gains` is the same on two boards that differ only at the centre `p`. */
  lemma {:induction false} GainsIgnoreCentre(s: Shape, b: seq<CellState>, b': seq<CellState>, p: Pos, qs: seq<Pos>,
                                             turn: CellState, nonTurn: CellState)
    requires |b| == |b'| == s.Count() && s.Contains(p)
    requires forall q <- qs :: Adjacent(q, p)
    requires forall i :: 0 <= i < |b| && i != s.Index(p) ==> b[i] == b'[i]
    ensures Gains(s, b, p, qs, turn, nonTurn) == Gains(s, b', p, qs, turn, nonTurn)
    decreases |qs|
  {
    if qs != [] {
      var q := qs[|qs| - 1];
      assert q in qs;
      AdjacentIsDirection(q, p);
      GainsIgnoreCentre(s, b, b', p, qs[..|qs| - 1], turn, nonTurn);
      AwayFromCentre(s, b, b', p, q);
      WalkReadsOnlyRay(s, b, b', q, q.Minus(p), turn, nonTurn, 0);
    }
  }

  // ---------------------------------------------------------------------------
  // Putting a stone

  /**
   * `CanPutStone(cell)`: the square is empty and some adjacent opponent stone starts
   * a sandwich in its direction.
   */
  predicate CanPutStone(s: Shape, b: seq<CellState>, p: Pos, turn: CellState, nonTurn: CellState)
    requires |b| == s.Count() && s.Contains(p)
  {
    b[s.Index(p)] == Empty
    && exists q <- StonesAround(s, b, p, nonTurn) :: ExsistsTurnPlyersStone(s, b, q, q.Minus(p), turn, nonTurn)
  }

  /**
   * The `StoneCount` that `UpdateStoneCount` gives the square `p`: 0 where no stone
   * can be put, otherwise the square itself plus every sandwiched run. A square can
   * take a stone (`Cell.CanBePutStone`) exactly when `CanPutStone` holds.
   */
  function StoneCount(s: Shape, b: seq<CellState>, p: Pos, turn: CellState, nonTurn: CellState): (n: int)
    requires |b| == s.Count() && s.Contains(p)
    ensures n >= 0
    ensures n > 0 <==> CanPutStone(s, b, p, turn, nonTurn)
  {
    if !CanPutStone(s, b, p, turn, nonTurn) then 0
    else 1 + Gains(s, b, p, StonesAround(s, b, p, nonTurn), turn, nonTurn)
  }

  /**
   * The board after the turn player puts a stone on `p` (`OnStonePutCoroutine`): the
   * stone is put, then the sandwiches through the opponent stones around it are turned.
   */
  function AfterPutting(s: Shape, b: seq<CellState>, p: Pos, turn: CellState, nonTurn: CellState): (r: seq<CellState>)
    requires |b| == s.Count() && s.Contains(p)
    ensures |r| == |b|
  {
    var b1 := b[s.Index(p) := turn];
    TurnOverSandwichedStones(s, b1, p, StonesAround(s, b1, p, nonTurn), turn, nonTurn)
  }

  /** Putting a stone on `p` does not change which stones are around it. */
  lemma StonesAroundIgnoreCentre(s: Shape, b: seq<CellState>, p: Pos, st: CellState, nonTurn: CellState)
    requires |b| == s.Count() && s.Contains(p)
    ensures StonesAround(s, b[s.Index(p) := st], p, nonTurn) == StonesAround(s, b, p, nonTurn)
  {
    var b1 := b[s.Index(p) := st];
    var ps := Surrounding(s, p);
    forall q <- ps
      ensures Holds(s, b1, nonTurn)(q) == Holds(s, b, nonTurn)(q)
    {
      SurroundingComplete(s, p, q);
      IndexInjective(s, p, q);
    }
    FilterCongruent(ps, Holds(s, b1, nonTurn), Holds(s, b, nonTurn));
  }

  /**
   * Putting a stone on `p` changes nothing but the square itself and opponent stones,
   * and each square it changes takes the turn player's colour.
   */
  lemma PuttingTurnsOnlyOpponents(s: Shape, b: seq<CellState>, p: Pos, turn: CellState, nonTurn: CellState)
    requires |b| == s.Count() && s.Contains(p)
    requires turn != Empty && nonTurn == Flipped(turn)
    ensures var r := AfterPutting(s, b, p, turn, nonTurn);
      forall i :: 0 <= i < |b| ==> r[i] == b[i] || ((i == s.Index(p) || b[i] == nonTurn) && r[i] == turn)
  {
    OpponentsAfterPutting(s, b, p, turn, nonTurn);
    SandwichEffect(s, b[s.Index(p) := turn], p, StonesAround(s, b, p, nonTurn), turn, nonTurn);
  }

  /**
   * Putting a stone where one can be put gains exactly its `StoneCount`: the stone
   * itself and `StoneCount - 1` opponent stones turned over.
   */
  lemma PuttingGainsStoneCount(s: Shape, b: seq<CellState>, p: Pos, turn: CellState, nonTurn: CellState)
    requires |b| == s.Count() && s.Contains(p)
    requires turn != Empty && nonTurn == Flipped(turn)
    requires CanPutStone(s, b, p, turn, nonTurn)
    ensures var r := AfterPutting(s, b, p, turn, nonTurn);
      var n := StoneCount(s, b, p, turn, nonTurn);
      Count(r, Is(turn)) == Count(b, Is(turn)) + n
      && Count(r, Is(nonTurn)) == Count(b, Is(nonTurn)) - (n - 1)
  {
    PuttingGainsSandwiches(s, b, p, turn, nonTurn);
  }

  /** Putting a stone on an empty square gains the stone and every sandwich around it. */
  lemma PuttingGainsSandwiches(s: Shape, b: seq<CellState>, p: Pos, turn: CellState, nonTurn: CellState)
    requires |b| == s.Count() && s.Contains(p) && b[s.Index(p)] == Empty
    requires turn != Empty && nonTurn == Flipped(turn)
    ensures var r := AfterPutting(s, b, p, turn, nonTurn);
      var g := Gains(s, b, p, StonesAround(s, b, p, nonTurn), turn, nonTurn);
      Count(r, Is(turn)) == Count(b, Is(turn)) + 1 + g
      && Count(r, Is(nonTurn)) == Count(b, Is(nonTurn)) - g
  {
    var ip := s.Index(p);
    var b1 := b[ip := turn];
    var qs := StonesAround(s, b, p, nonTurn);
    PutOnEmpty(b, ip, turn, nonTurn);
    OpponentsAfterPutting(s, b, p, turn, nonTurn);
    SandwichEffect(s, b1, p, qs, turn, nonTurn);
    GainsIgnoreCentre(s, b1, b, p, qs, turn, nonTurn);
  }

  /** A stone put on an empty square adds one to its colour's tally and leaves the other's. */
  lemma PutOnEmpty(b: seq<CellState>, i: nat, turn: CellState, nonTurn: CellState)
    requires i < |b| && b[i] == Empty
    requires turn != Empty && nonTurn == Flipped(turn)
    ensures Count(b[i := turn], Is(turn)) == Count(b, Is(turn)) + 1
    ensures Count(b[i := turn], Is(nonTurn)) == Count(b, Is(nonTurn))
  {
    CountUpdate(b, i, turn, Is(turn));
    CountUpdate(b, i, turn, Is(nonTurn));
  }

  /**
   * After a stone is put on `p`, the opponent stones around `p` are the ones around it
   * before, distinct, and still the opponent's.
   */
  lemma OpponentsAfterPutting(s: Shape, b: seq<CellState>, p: Pos, turn: CellState, nonTurn: CellState)
    requires |b| == s.Count() && s.Contains(p)
    ensures var b1 := b[s.Index(p) := turn];
      var qs := StonesAround(s, b, p, nonTurn);
      StonesAround(s, b1, p, nonTurn) == qs && Distinct(qs)
      && forall q <- qs :: s.Contains(q) && Adjacent(q, p) && b1[s.Index(q)] == nonTurn
  {
    var b1 := b[s.Index(p) := turn];
    StonesAroundIgnoreCentre(s, b, p, turn, nonTurn);
    var qs := StonesAround(s, b, p, nonTurn);
    StonesAroundDistinct(s, b, p, nonTurn);
    forall q <- qs
      ensures b1[s.Index(q)] == nonTurn
    {
      IndexInjective(s, p, q);
    }
  }

  // ---------------------------------------------------------------------------
  // The whole board

  /** The turn player has somewhere to put a stone. */
  ghost predicate AnyMove(s: Shape, b: seq<CellState>, turn: CellState, nonTurn: CellState)
    requires |b| == s.Count()
  {
    exists p :: s.Contains(p) && CanPutStone(s, b, p, turn, nonTurn)
  }

  /** Every square shows the `StoneCount` of the board for the given turn. */
  ghost predicate CountsShown(s: Shape, v: seq<Cell>, turn: CellState, nonTurn: CellState)
    requires |v| == s.Count()
  {
    forall p :: s.Contains(p) ==> v[s.Index(p)].stoneCount == StoneCount(s, States(v), p, turn, nonTurn)
  }

  /**
   * With the counts shown, `CountPuttableCells` finds a square exactly when the turn
   * player has a move.
   */
  lemma PuttableCountIsAnyMove(s: Shape, v: seq<Cell>, turn: CellState, nonTurn: CellState)
    requires |v| == s.Count() && CountsShown(s, v, turn, nonTurn)
    ensures Count(v, CanBePutStone) > 0 <==> AnyMove(s, States(v), turn, nonTurn)
  {
    CountPositive(v, CanBePutStone);
    if exists i :: 0 <= i < |v| && CanBePutStone(v[i]) {
      var i :| 0 <= i < |v| && CanBePutStone(v[i]);
      ShownSquareIsMove(s, v, i, turn, nonTurn);
    }
    if AnyMove(s, States(v), turn, nonTurn) {
      MoveIsShown(s, v, turn, nonTurn);
    }
  }

  /** A square showing a positive count is a move. */
  lemma ShownSquareIsMove(s: Shape, v: seq<Cell>, i: int, turn: CellState, nonTurn: CellState)
    requires |v| == s.Count() && CountsShown(s, v, turn, nonTurn)
    requires 0 <= i < |v| && CanBePutStone(v[i])
    ensures AnyMove(s, States(v), turn, nonTurn)
  {
    ColumnsOfNonEmpty(s, i);
    var q := s.ToPosition(i);
    assert s.Index(q) == i;
    assert v[i].stoneCount == StoneCount(s, States(v), q, turn, nonTurn);
  }

  /** A move shows a positive count on its square. */
  lemma MoveIsShown(s: Shape, v: seq<Cell>, turn: CellState, nonTurn: CellState)
    requires |v| == s.Count() && CountsShown(s, v, turn, nonTurn)
    requires AnyMove(s, States(v), turn, nonTurn)
    ensures exists i :: 0 <= i < |v| && CanBePutStone(v[i])
  {
    var p :| s.Contains(p) && CanPutStone(s, States(v), p, turn, nonTurn);
    assert CanBePutStone(v[s.Index(p)]);
  }

  /** Black stones, white stones and empty squares make up the board. */
  lemma {:induction false} StoneTallies(b: seq<CellState>)
    ensures Count(b, Is(Black)) + Count(b, Is(White)) + Count(b, Is(Empty)) == |b|
  {
    if b != [] {
      StoneTallies(b[..|b| - 1]);
    }
  }

  /**
   * The board `PutInitialStones` leaves: the white starting squares white, the
   * other black starting squares black, everything else as it was.
   */
  function WithInitialStones(s: Shape, b: seq<CellState>, blacks: seq<Pos>, whites: seq<Pos>): (r: seq<CellState>)
    ensures |r| == |b|
  {
    seq(|b|, i requires 0 <= i < |b| =>
      if i in IndicesOf(s, whites) then White else if i in IndicesOf(s, blacks) then Black else b[i])
  }
}
