/**
 * The Monte-Carlo evaluator: a grid of scores over the board, a playout
 * that fills a copy of the board at random and scores the player's cells
 * by the outcome, and the argmax that picks the move.
 *
 * The random choices of the C++ code (`flipCoin`, and the shuffles inside
 * `forEachEmptyPosition`) are inputs here: coin flips as booleans and the
 * row and column orders as permutations.
 */
module MonteCarlo {
  import opened Common
  import opened Graphs
  import opened Boards

  /** The number of cells `getBestPosition` scans. */
  function ScanLength(size: int): nat
  {
    if size <= 0 then 0 else size * size
  }

  /** Every cell of the board is owned. */
  ghost predicate Full(size: int, g: Grid)
    requires WellFormed(size, g)
  {
    forall r, c :: 0 <= r < size && 0 <= c < size ==> g[r][c] != Undecided
  }

  // ---------------------------------------------------------------------
  // What a list of pieces says about one cell.
  // ---------------------------------------------------------------------

  /** The owner the last piece on `a` names, or `Undecided` when no piece stands on `a`. */
  function OwnerAt(ps: seq<Piece>, a: Position): Turn
  {
    if ps == [] then Undecided
    else if Spot(ps[|ps| - 1]) == a then ps[|ps| - 1].owner
    else OwnerAt(ps[..|ps| - 1], a)
  }

  /** Some piece stands on `a`. */
  function Covers(ps: seq<Piece>, a: Position): bool
  {
    if ps == [] then false else Spot(ps[|ps| - 1]) == a || Covers(ps[..|ps| - 1], a)
  }

  /** Extending a prefix by one piece changes only the answer for that piece's cell. */
  lemma PrefixStep(ps: seq<Piece>, k: int, a: Position)
    requires 0 <= k < |ps|
    ensures OwnerAt(ps[..k + 1], a) == if Spot(ps[k]) == a then ps[k].owner else OwnerAt(ps[..k], a)
    ensures Covers(ps[..k + 1], a) == (Spot(ps[k]) == a || Covers(ps[..k], a))
  {
    assert ps[..k + 1][..k] == ps[..k];
  }

  lemma {:induction false} CoversSpots(ps: seq<Piece>, a: Position)
    ensures Covers(ps, a) <==> a in Spots(ps)
  {
    if ps != [] {
      var front := ps[..|ps| - 1];
      CoversSpots(front, a);
      assert Spots(ps) == Spots(front) + {Spot(ps[|ps| - 1])} by {
        forall b | b in Spots(ps) ensures b in Spots(front) + {Spot(ps[|ps| - 1])} {
          var k :| 0 <= k < |ps| && Spot(ps[k]) == b;
          if k < |front| {
            assert Spot(front[k]) == b;
          }
        }
        forall b | b in Spots(front) ensures b in Spots(ps) {
          var k :| 0 <= k < |front| && Spot(front[k]) == b;
          assert Spot(ps[k]) == b;
        }
      }
    }
  }

  /** When every piece on `a` names `t`, the answer for `a` is `t` exactly when some piece stands there. */
  lemma {:induction false} OwnerAtAgrees(ps: seq<Piece>, a: Position, t: Turn)
    requires forall k :: 0 <= k < |ps| && Spot(ps[k]) == a ==> ps[k].owner == t
    ensures OwnerAt(ps, a) == if Covers(ps, a) then t else Undecided
  {
    if ps != [] {
      var front := ps[..|ps| - 1];
      forall k | 0 <= k < |front| && Spot(front[k]) == a ensures front[k].owner == t {
        assert front[k] == ps[k];
      }
      OwnerAtAgrees(front, a, t);
    }
  }

  /**
   * For the pieces `forEachPiece` lists on a grid, the owner a cell's
   * pieces name is the cell's owner, and off the board nobody.
   */
  lemma PiecesOwners(size: int, g: Grid, ps: seq<Piece>, a: Position)
    requires WellFormed(size, g)
    requires forall k :: 0 <= k < |ps| ==> Exists(size, ps[k].row, ps[k].col) && ps[k].owner == g[ps[k].row][ps[k].col]
    requires Spots(ps) == Stones(size, g)
    ensures Covers(ps, a) <==> Exists(size, a.row, a.col) && g[a.row][a.col] != Undecided
    ensures OwnerAt(ps, a) == if Exists(size, a.row, a.col) then g[a.row][a.col] else Undecided
  {
    CoversSpots(ps, a);
    if Exists(size, a.row, a.col) {
      OwnerAtAgrees(ps, a, g[a.row][a.col]);
    } else {
      OwnerAtAgrees(ps, a, Undecided);
    }
  }

  /** Row-major order lists every cell once. */
  lemma OrderedDistinct(ps: seq<Piece>)
    requires forall i, j :: 0 <= i < j < |ps| ==> Before(Spot(ps[i]), Spot(ps[j]))
    ensures forall i, j :: 0 <= i < j < |ps| ==> Spot(ps[i]) != Spot(ps[j])
  {
  }

  // ---------------------------------------------------------------------
  // The score grid.
  // ---------------------------------------------------------------------

  /**
   * `BoardEvaluation`: a score per cell in a fixed MAX_BOARD_SIZE square
   * grid, all zero at first, of which the top-left `size` square is used.
   */
  class BoardEvaluation {
    const size: int
    const positions: array2<int>

    ghost predicate Valid()
    {
      && positions.Length0 == MAX_BOARD_SIZE && positions.Length1 == MAX_BOARD_SIZE
      && size <= MAX_BOARD_SIZE
    }

    /** The range test of every accessor. */
    predicate InRange(row: int, col: int)
    {
      0 <= row < size && 0 <= col < size
    }

    /** Every score of the grid is 0. */
    ghost predicate Zeroed()
      reads positions
    {
      forall r, c :: 0 <= r < positions.Length0 && 0 <= c < positions.Length1 ==> positions[r, c] == 0
    }

    constructor (size: int)
      requires size <= MAX_BOARD_SIZE
      ensures Valid() && this.size == size && Zeroed() && fresh(positions)
    {
      this.size := size;
      positions := new int[MAX_BOARD_SIZE, MAX_BOARD_SIZE]((_, _) => 0);
    }

    /** `getScore`: the score of a cell, or `OutOfRange` off the used square. */
    function GetScore(row: int, col: int): (r: Result<int>)
      reads positions
      requires Valid()
      ensures r.Ok? <==> InRange(row, col)
      ensures r.Ok? ==> r.value == positions[row, col]
      ensures r.Err? ==> r.error == OutOfRange
    {
      if !InRange(row, col) then Err(OutOfRange) else Ok(positions[row, col])
    }

    /** `increaseScore`: one more point for the cell; nothing else changes. */
    method IncreaseScore(row: int, col: int) returns (status: Status)
      requires Valid()
      modifies positions
      ensures status == if InRange(row, col) then Done else Failed(OutOfRange)
      ensures forall r, c :: 0 <= r < positions.Length0 && 0 <= c < positions.Length1 ==>
        positions[r, c] == old(positions[r, c]) + (if status.Done? && r == row && c == col then 1 else 0)
    {
      if !InRange(row, col) {
        return Failed(OutOfRange);
      }
      positions[row, col] := positions[row, col] + 1;
      return Done;
    }

    /** `decreaseScore`: one point less for the cell; nothing else changes. */
    method DecreaseScore(row: int, col: int) returns (status: Status)
      requires Valid()
      modifies positions
      ensures status == if InRange(row, col) then Done else Failed(OutOfRange)
      ensures forall r, c :: 0 <= r < positions.Length0 && 0 <= c < positions.Length1 ==>
        positions[r, c] == old(positions[r, c]) - (if status.Done? && r == row && c == col then 1 else 0)
    {
      if !InRange(row, col) {
        return Failed(OutOfRange);
      }
      positions[row, col] := positions[row, col] - 1;
      return Done;
    }

    /** `deactivate`: the cell gets the lowest `int`, so that it is never preferred; nothing else changes. */
    method Deactivate(row: int, col: int) returns (status: Status)
      requires Valid()
      modifies positions
      ensures status == if InRange(row, col) then Done else Failed(OutOfRange)
      ensures forall r, c :: 0 <= r < positions.Length0 && 0 <= c < positions.Length1 ==>
        positions[r, c] == if status.Done? && r == row && c == col then INT_MIN else old(positions[r, c])
    {
      if !InRange(row, col) {
        return Failed(OutOfRange);
      }
      positions[row, col] := INT_MIN;
      return Done;
    }

    /**
     * `getBestPosition`: a row-major scan that keeps the best score seen,
     * moving to a later cell with a higher score, or with an equal score
     * when the coin for that tie comes up false. `coins[k]` is the k-th
     * flip; a flip happens only on a tie (cell (0, 0) always ties with
     * itself). The result is a cell of highest score, and (0, 0) when the
     * used square is empty.
     */
    method GetBestPosition(coins: seq<bool>) returns (best: Position)
      requires Valid() && |coins| >= ScanLength(size)
      ensures size <= 0 ==> best == Position(0, 0)
      ensures 0 < size ==> InRange(best.row, best.col)
      ensures 0 < size ==> forall r, c :: InRange(r, c) ==> positions[r, c] <= positions[best.row, best.col]
    {
      var bestValue := positions[0, 0];
      best := Position(0, 0);
      var used := 0;
      var i := 0;
      while i < size
        invariant 0 <= i && (i <= size || i == 0) && 0 <= used <= i * size
        invariant best == Position(0, 0) || InRange(best.row, best.col)
        invariant bestValue == positions[best.row, best.col]
        invariant forall r, c :: 0 <= r < i && 0 <= c < size ==> positions[r, c] <= bestValue
      {
        var j := 0;
        while j < size
          invariant 0 <= j <= size && 0 <= used <= i * size + j
          invariant best == Position(0, 0) || InRange(best.row, best.col)
          invariant bestValue == positions[best.row, best.col]
          invariant forall r, c :: 0 <= r < i && 0 <= c < size ==> positions[r, c] <= bestValue
          invariant forall c :: 0 <= c < j ==> positions[i, c] <= bestValue
        {
          var value := positions[i, j];
          var take := value > bestValue;
          if value == bestValue {
            RowMajorBound(i, j, size);
            take := !coins[used];
            used := used + 1;
          }
          if take {
            bestValue := value;
            best := Position(i, j);
          }
          j := j + 1;
        }
        assert i * size + size == (i + 1) * size;
        i := i + 1;
      }
    }
  }

  /** Cell (i, j) of a square of side n is scanned before the n * n-th. */
  lemma RowMajorBound(i: int, j: int, n: int)
    requires 0 <= i < n && 0 <= j < n
    ensures i * n + j < ScanLength(n)
  {
    MulMonotone(i + 1, n, n);
    assert (i + 1) * n == i * n + n;
  }

  // ---------------------------------------------------------------------
  // The playout.
  // ---------------------------------------------------------------------

  /** The score a cell has after one `simulate`, given the score it had before. */
  ghost function Rescored(size: int, actual: Grid, final: Grid, player: Turn, won: Turn, before: int, r: int, c: int): int
    requires WellFormed(size, actual) && WellFormed(size, final)
  {
    if Exists(size, r, c) && actual[r][c] != Undecided then INT_MIN
    else if Exists(size, r, c) && final[r][c] == player then before + (if won == player then 1 else -1)
    else before
  }

  /**
   * The loop of `forEachEmptyPosition` with the callback `set(row, col,
   * false)`: the listed cells are claimed in turn, alternating colours,
   * without checking for a winner. Each listed cell is still empty when it
   * is reached, because the earlier claims were of other cells.
   */
  method Fill(sim: Board, cells: seq<Position>)
    requires sim.Valid() && sim.turn != Undecided && Distinct(cells)
    requires forall k :: 0 <= k < |cells| ==> EmptyAt(sim.size, sim.positions, cells[k])
    modifies sim, sim.blueGraph, sim.blueGraph.limits, sim.redGraph, sim.redGraph.limits
    ensures sim.Valid() && sim.size == old(sim.size) && sim.turn != Undecided && sim.winner == old(sim.winner)
    ensures forall k :: 0 <= k < |cells| ==> Exists(old(sim.size), cells[k].row, cells[k].col)
    ensures sim.positions == PlayOut(old(sim.size), old(sim.positions), cells, old(sim.turn))
  {
    ghost var n, start, first := sim.size, sim.positions, sim.turn;
    assert cells[0..] == cells;
    var k := 0;
    while k < |cells|
      invariant 0 <= k <= |cells|
      invariant sim.Valid() && sim.size == n && sim.turn != Undecided && sim.winner == old(sim.winner)
      invariant sim.blueGraph == old(sim.blueGraph) && sim.redGraph == old(sim.redGraph)
      invariant Filling(n, start, first, cells, k, sim.positions, sim.turn)
    {
      FillingStep(n, start, first, cells, k, sim.positions, sim.turn);
      Claim(sim, cells[k]);
      k := k + 1;
    }
    FillingDone(n, start, first, cells, sim.positions, sim.turn);
  }

  /**
   * The state of the fill after the first `k` cells: exactly those are
   * claimed, and playing out the rest from here ends where playing out
   * all of them from the start does.
   */
  ghost predicate Filling(size: int, start: Grid, first: Turn, cells: seq<Position>, k: int, g: Grid, t: Turn)
  {
    && WellFormed(size, start) && WellFormed(size, g) && Distinct(cells) && 0 <= k <= |cells| && t != Undecided
    && (forall i :: 0 <= i < |cells| ==> EmptyAt(size, start, cells[i]))
    && Claimed(size, start, g, cells[..k])
    && PlayOut(size, g, cells[k..], t) == PlayOut(size, start, cells, first)
  }

  /** The next cell of the fill is still empty, and claiming it for `t` is the next state of the fill. */
  lemma FillingStep(size: int, start: Grid, first: Turn, cells: seq<Position>, k: int, g: Grid, t: Turn)
    requires Filling(size, start, first, cells, k, g, t) && k < |cells|
    ensures EmptyAt(size, g, cells[k])
    ensures Filling(size, start, first, cells, k + 1, Place(g, cells[k].row, cells[k].col, t), Other(t))
  {
    assert cells[k] !in cells[..k];
    assert cells[..k + 1] == cells[..k] + [cells[k]];
    ClaimStep(size, start, g, cells[..k], cells[k], t);
    assert cells[k..][1..] == cells[k + 1..];
  }

  /** Once every cell is claimed the grid is the playout of the cells. */
  lemma FillingDone(size: int, start: Grid, first: Turn, cells: seq<Position>, g: Grid, t: Turn)
    requires Filling(size, start, first, cells, |cells|, g, t)
    ensures g == PlayOut(size, start, cells, first)
  {
    assert cells[..|cells|] == cells;
    assert cells[|cells|..] == [];
  }

  /** One callback of the fill: `set(row, col, false)` on an empty cell claims it for the player to move. */
  method Claim(sim: Board, at: Position)
    requires sim.Valid() && sim.turn != Undecided && EmptyAt(sim.size, sim.positions, at)
    modifies sim, sim.blueGraph, sim.blueGraph.limits, sim.redGraph, sim.redGraph.limits
    ensures sim.Valid() && sim.size == old(sim.size) && sim.winner == old(sim.winner)
    ensures sim.blueGraph == old(sim.blueGraph) && sim.redGraph == old(sim.redGraph)
    ensures sim.positions == Place(old(sim.positions), at.row, at.col, old(sim.turn))
    ensures sim.turn == Other(old(sim.turn)) && sim.movements == old(sim.movements) + 1
  {
    var status := sim.Set(at.row, at.col, false);
  }

  /** `g` is `start` with exactly the cells of `done` claimed. */
  ghost predicate Claimed(size: int, start: Grid, g: Grid, done: seq<Position>)
  {
    && WellFormed(size, start) && WellFormed(size, g)
    && forall r, c :: Exists(size, r, c) ==>
      && (Position(r, c) in done ==> g[r][c] != Undecided)
      && (Position(r, c) !in done ==> g[r][c] == start[r][c])
  }

  /** Playing out distinct empty cells claims exactly those cells and leaves every other cell as it was. */
  lemma {:induction false} PlayOutClaims(size: int, g: Grid, cells: seq<Position>, t: Turn)
    requires WellFormed(size, g) && Distinct(cells) && t != Undecided
    requires forall k :: 0 <= k < |cells| ==> Exists(size, cells[k].row, cells[k].col) && EmptyAt(size, g, cells[k])
    ensures Claimed(size, g, PlayOut(size, g, cells, t), cells)
    decreases |cells|
  {
    if cells != [] {
      var at, rest := cells[0], cells[1..];
      var g' := Place(g, at.row, at.col, t);
      assert forall k :: 0 <= k < |rest| ==> rest[k] == cells[k + 1] && rest[k] != at;
      PlayOutClaims(size, g', rest, Other(t));
      assert forall a :: a in cells <==> a == at || a in rest;
    }
  }

  /** A cell that was empty at the start and is not yet claimed is still empty, and claiming it extends `done`. */
  lemma ClaimStep(size: int, start: Grid, g: Grid, done: seq<Position>, at: Position, t: Turn)
    requires Claimed(size, start, g, done) && EmptyAt(size, start, at) && at !in done && t != Undecided
    ensures g[at.row][at.col] == Undecided
    ensures Claimed(size, start, Place(g, at.row, at.col, t), done + [at])
  {
  }

  /** The grid after the opening of `simulate`: Red takes the lone opening stone over when one move was made and the coin says so. */
  function Opened(size: int, g: Grid, movements: int, opening: Position, pieCoin: bool): (r: Grid)
    requires WellFormed(size, g) && (movements == 1 ==> Exists(size, opening.row, opening.col))
    ensures WellFormed(size, r)
  {
    if movements == 1 && pieCoin then Place(g, opening.row, opening.col, Red) else g
  }

  /** Whose turn it is after the opening of `simulate`: Blue's when the pie rule was taken. */
  function OpenedTurn(turn: Turn, movements: int, pieCoin: bool): Turn
  {
    if movements == 1 && pieCoin then Blue else turn
  }

  /**
   * The grid a playout of `simulate` ends in: the opening, then the live
   * fill of the cells in the order `rowIds` x `colIds`, alternating from
   * the player to move.
   */
  function PlayoutGrid(size: int, g: Grid, turn: Turn, movements: int, opening: Position,
                       pieCoin: bool, rowIds: seq<int>, colIds: seq<int>): (r: Grid)
    requires WellFormed(size, g) && (movements == 1 ==> Exists(size, opening.row, opening.col))
    ensures WellFormed(size, r)
  {
    LiveFill(size, Opened(size, g, movements, opening, pieCoin), Pairs(rowIds, colIds), OpenedTurn(turn, movements, pieCoin))
  }

  /**
   * A playout from a position with a player to move fills the board, and
   * every stone already on it keeps its owner, except that the pie rule
   * turns the lone opening stone Red.
   */
  lemma PlayoutFills(size: int, g: Grid, turn: Turn, winner: Turn, movements: int, opening: Position,
                     pieCoin: bool, rowIds: seq<int>, colIds: seq<int>)
    requires WellFormed(size, g) && Bookkeeping(size, g, turn, winner, movements, opening) && turn != Undecided
    requires IsPermutation(rowIds, size) && IsPermutation(colIds, size)
    ensures var f := PlayoutGrid(size, g, turn, movements, opening, pieCoin, rowIds, colIds);
      && Full(size, f)
      && forall r, c :: Exists(size, r, c) && g[r][c] != Undecided ==>
           f[r][c] == if movements == 1 && pieCoin then Red else g[r][c]
  {
    var mid, first := Opened(size, g, movements, opening, pieCoin), OpenedTurn(turn, movements, pieCoin);
    var f := LiveFill(size, mid, Pairs(rowIds, colIds), first);
    assert f == PlayoutGrid(size, g, turn, movements, opening, pieCoin, rowIds, colIds);
    FillCompletes(size, mid, rowIds, colIds, first);
    forall r, c | 0 <= r < size && 0 <= c < size ensures f[r][c] != Undecided {
      assert mid[r][c] != Undecided ==> f[r][c] == mid[r][c];
    }
    if movements == 1 && pieCoin {
      SwappedStones(size, g, opening);
      forall r, c | Exists(size, r, c) && g[r][c] != Undecided ensures f[r][c] == Red {
        assert mid[r][c] == Red;
      }
    }
  }

  /**
   * The first half of `simulate` on the copy: the pie rule when one move
   * was made and the coin allows it, every empty cell claimed in the
   * shuffled order, and one `checkGame`.
   */
  method Playout(sim: Board, pieCoin: bool, rowIds: seq<int>, colIds: seq<int>)
    requires sim.Valid() && sim.turn != Undecided
    requires IsPermutation(rowIds, sim.size) && IsPermutation(colIds, sim.size)
    modifies sim, sim.blueGraph, sim.blueGraph.limits, sim.redGraph, sim.redGraph.limits
    ensures sim.Wired() && sim.size == old(sim.size) && Full(sim.size, sim.positions)
    ensures sim.positions == PlayoutGrid(sim.size, old(sim.positions), old(sim.turn), old(sim.movements),
                                         old(sim.opening), pieCoin, rowIds, colIds)
    ensures forall r, c :: Exists(sim.size, r, c) && old(sim.positions)[r][c] != Undecided ==>
      sim.positions[r][c] == if old(sim.movements) == 1 && pieCoin then Red else old(sim.positions)[r][c]
    ensures sim.winner == Outcome(sim.size, sim.positions, Undecided)
  {
    Open(sim, pieCoin);
    FillAndCheck(sim, rowIds, colIds);
  }

  /** The pie rule of `simulate`: taken when one move was made and the coin says so. */
  method Open(sim: Board, pieCoin: bool)
    requires sim.Valid() && sim.turn != Undecided
    modifies sim`positions, sim`turn, sim`movements
    ensures sim.Valid() && sim.turn != Undecided
    ensures old(sim.movements) == 1 ==> Exists(sim.size, sim.opening.row, sim.opening.col)
    ensures sim.positions == Opened(sim.size, old(sim.positions), old(sim.movements), sim.opening, pieCoin)
    ensures sim.turn == OpenedTurn(old(sim.turn), old(sim.movements), pieCoin)
    ensures sim.movements == if old(sim.movements) == 1 && pieCoin then 2 else old(sim.movements)
    ensures forall r, c :: Exists(sim.size, r, c) && old(sim.positions)[r][c] != Undecided ==>
      sim.positions[r][c] == if old(sim.movements) == 1 && pieCoin then Red else old(sim.positions)[r][c]
  {
    if sim.movements == 1 && pieCoin {
      ghost var before := sim.positions;
      var status := sim.PieRule();
      assert status == Done;
      SwappedStones(sim.size, before, sim.opening);
    }
  }

  /** The rest of the playout: every empty cell claimed in the order `rowIds` x `colIds`, then one `checkGame`. */
  method FillAndCheck(sim: Board, rowIds: seq<int>, colIds: seq<int>)
    requires sim.Valid() && sim.turn != Undecided
    requires IsPermutation(rowIds, sim.size) && IsPermutation(colIds, sim.size)
    modifies sim, sim.blueGraph, sim.blueGraph.limits, sim.redGraph, sim.redGraph.limits
    ensures sim.Wired() && sim.size == old(sim.size) && Full(sim.size, sim.positions)
    ensures sim.positions == LiveFill(sim.size, old(sim.positions), Pairs(rowIds, colIds), old(sim.turn))
    ensures forall r, c :: Exists(sim.size, r, c) && old(sim.positions)[r][c] != Undecided ==>
      sim.positions[r][c] == old(sim.positions)[r][c]
    ensures sim.winner == Outcome(sim.size, sim.positions, Undecided)
  {
    PairsFacts(rowIds, colIds);
    LiveFillIsPlayOut(sim.size, sim.positions, Pairs(rowIds, colIds), sim.turn);
    var cells := sim.ForEachEmptyPosition(rowIds, colIds);
    Fill(sim, cells);
    PlayOutClaims(sim.size, old(sim.positions), cells, old(sim.turn));
    FilledFull(sim.size, old(sim.positions), sim.positions, cells);
    sim.CheckGame();
  }

  /** After the pie rule the lone stone, and so every stone, is Red. */
  lemma SwappedStones(size: int, g: Grid, opening: Position)
    requires WellFormed(size, g) && OnlyAt(size, g, opening) && Exists(size, opening.row, opening.col)
    ensures forall r, c :: Exists(size, r, c) && g[r][c] != Undecided ==>
      Place(g, opening.row, opening.col, Red)[r][c] == Red
  {
  }

  /** Claiming exactly the cells that were empty fills the board and keeps the stones. */
  lemma FilledFull(size: int, mid: Grid, g: Grid, cells: seq<Position>)
    requires WellFormed(size, mid) && WellFormed(size, g)
    requires forall a :: a in cells <==> EmptyAt(size, mid, a)
    requires forall r, c :: Exists(size, r, c) ==>
      && (Position(r, c) in cells ==> g[r][c] != Undecided)
      && (Position(r, c) !in cells ==> g[r][c] == mid[r][c])
    ensures Full(size, g)
    ensures forall r, c :: Exists(size, r, c) && mid[r][c] != Undecided ==> g[r][c] == mid[r][c]
  {
    forall r, c | 0 <= r < size && 0 <= c < size ensures g[r][c] != Undecided {
      if Position(r, c) !in cells {
        assert !EmptyAt(size, mid, Position(r, c));
      }
    }
    forall r, c | Exists(size, r, c) && mid[r][c] != Undecided ensures g[r][c] == mid[r][c] {
      assert !EmptyAt(size, mid, Position(r, c));
    }
  }

  /** The points a cell takes from `pieces`: one for a cell of `player` when `player` won, minus one when it did not. */
  function Gain(pieces: seq<Piece>, a: Position, player: Turn, won: Turn): int
  {
    if Covers(pieces, a) && OwnerAt(pieces, a) == player then (if won == player then 1 else -1) else 0
  }

  /** A piece on a fresh cell adds its own points to that cell only. */
  lemma GainStep(ps: seq<Piece>, k: int, a: Position, player: Turn, won: Turn)
    requires 0 <= k < |ps| && !Covers(ps[..k], Spot(ps[k]))
    ensures Gain(ps[..k + 1], a, player, won)
         == Gain(ps[..k], a, player, won) + (if a == Spot(ps[k]) && ps[k].owner == player then (if won == player then 1 else -1) else 0)
  {
    PrefixStep(ps, k, a);
  }

  /**
   * The scoring callback over the pieces of the finished copy: each cell
   * of `player` gains a point when `player` won and loses one otherwise.
   */
  method Reward(evaluation: BoardEvaluation, pieces: seq<Piece>, player: Turn, won: Turn)
    requires evaluation.Valid()
    requires forall k :: 0 <= k < |pieces| ==> evaluation.InRange(pieces[k].row, pieces[k].col)
    requires forall i, j :: 0 <= i < j < |pieces| ==> Spot(pieces[i]) != Spot(pieces[j])
    modifies evaluation.positions
    ensures forall r, c :: 0 <= r < MAX_BOARD_SIZE && 0 <= c < MAX_BOARD_SIZE ==>
      evaluation.positions[r, c] == old(evaluation.positions[r, c]) + Gain(pieces, Position(r, c), player, won)
  {
    for k := 0 to |pieces|
      invariant forall r, c :: 0 <= r < MAX_BOARD_SIZE && 0 <= c < MAX_BOARD_SIZE ==>
        evaluation.positions[r, c] == old(evaluation.positions[r, c]) + Gain(pieces[..k], Position(r, c), player, won)
    {
      var piece := pieces[k];
      forall i | 0 <= i < k ensures Spot(pieces[..k][i]) != Spot(piece) {
        assert pieces[..k][i] == pieces[i];
      }
      Unseen(pieces[..k], Spot(piece));
      forall r, c | 0 <= r < MAX_BOARD_SIZE && 0 <= c < MAX_BOARD_SIZE {
        GainStep(pieces, k, Position(r, c), player, won);
      }
      if won == player && piece.owner == player {
        var status := evaluation.IncreaseScore(piece.row, piece.col);
      }
      if won != player && piece.owner == player {
        var status := evaluation.DecreaseScore(piece.row, piece.col);
      }
    }
    assert pieces[..|pieces|] == pieces;
  }

  /** No piece stands on `a`. */
  lemma {:induction false} Unseen(ps: seq<Piece>, a: Position)
    requires forall i :: 0 <= i < |ps| ==> Spot(ps[i]) != a
    ensures !Covers(ps, a)
  {
    if ps != [] {
      var front := ps[..|ps| - 1];
      forall i | 0 <= i < |front| ensures Spot(front[i]) != a {
        assert front[i] == ps[i];
      }
      Unseen(front, a);
    }
  }

  /** The deactivation callback over the pieces of the real board. */
  method Retire(evaluation: BoardEvaluation, pieces: seq<Piece>)
    requires evaluation.Valid()
    requires forall k :: 0 <= k < |pieces| ==> evaluation.InRange(pieces[k].row, pieces[k].col)
    modifies evaluation.positions
    ensures forall r, c :: 0 <= r < MAX_BOARD_SIZE && 0 <= c < MAX_BOARD_SIZE ==>
      evaluation.positions[r, c] == if Covers(pieces, Position(r, c)) then INT_MIN else old(evaluation.positions[r, c])
  {
    for k := 0 to |pieces|
      invariant forall r, c :: 0 <= r < MAX_BOARD_SIZE && 0 <= c < MAX_BOARD_SIZE ==>
        evaluation.positions[r, c] == if Covers(pieces[..k], Position(r, c)) then INT_MIN else old(evaluation.positions[r, c])
    {
      forall r, c | 0 <= r < MAX_BOARD_SIZE && 0 <= c < MAX_BOARD_SIZE {
        PrefixStep(pieces, k, Position(r, c));
      }
      var status := evaluation.Deactivate(pieces[k].row, pieces[k].col);
    }
    assert pieces[..|pieces|] == pieces;
  }

  /**
   * `Board simulation = board` and the playout on that copy, then the pieces
   * `forEachPiece` reports on it: `final` is the filled grid and `won` its
   * winner. The board itself is not changed.
   */
  method PlayCopy(board: Board, pieCoin: bool, rowIds: seq<int>, colIds: seq<int>)
    returns (pieces: seq<Piece>, won: Turn, ghost final: Grid)
    requires board.Valid() && board.turn != Undecided
    requires IsPermutation(rowIds, board.size) && IsPermutation(colIds, board.size)
    ensures WellFormed(board.size, final) && Full(board.size, final)
    ensures final == PlayoutGrid(board.size, board.positions, board.turn, board.movements, board.opening,
                                 pieCoin, rowIds, colIds)
    ensures forall r, c :: Exists(board.size, r, c) && board.positions[r][c] != Undecided ==>
      final[r][c] == if board.movements == 1 && pieCoin then Red else board.positions[r][c]
    ensures won == Outcome(board.size, final, Undecided)
    ensures forall k :: 0 <= k < |pieces| ==> Exists(board.size, pieces[k].row, pieces[k].col)
    ensures forall i, j :: 0 <= i < j < |pieces| ==> Spot(pieces[i]) != Spot(pieces[j])
    ensures forall a: Position :: Covers(pieces, a) <==> Exists(board.size, a.row, a.col)
    ensures forall a: Position :: Exists(board.size, a.row, a.col) ==> OwnerAt(pieces, a) == final[a.row][a.col]
  {
    var simulation := new Board.Copy(board);
    Playout(simulation, pieCoin, rowIds, colIds);
    won, final := simulation.winner, simulation.positions;
    pieces := simulation.ForEachPiece();
    OrderedDistinct(pieces);
    forall a: Position | true ensures (Covers(pieces, a) <==> Exists(board.size, a.row, a.col))
      && (Exists(board.size, a.row, a.col) ==> OwnerAt(pieces, a) == final[a.row][a.col]) {
      PiecesOwners(board.size, final, pieces, a);
    }
  }

  /**
   * The two scoring passes of `simulate`: the points of the playout that
   * ended in `final`, then deactivation of the stones of `actual`.
   */
  method Rescore(evaluation: BoardEvaluation, pieces: seq<Piece>, stones: seq<Piece>, player: Turn, won: Turn,
                 ghost size: int, ghost actual: Grid, ghost final: Grid)
    requires evaluation.Valid() && evaluation.size == size && WellFormed(size, actual) && WellFormed(size, final)
    requires forall k :: 0 <= k < |pieces| ==> Exists(size, pieces[k].row, pieces[k].col)
    requires forall i, j :: 0 <= i < j < |pieces| ==> Spot(pieces[i]) != Spot(pieces[j])
    requires forall a: Position :: Covers(pieces, a) <==> Exists(size, a.row, a.col)
    requires forall a: Position :: Exists(size, a.row, a.col) ==> OwnerAt(pieces, a) == final[a.row][a.col]
    requires forall k :: 0 <= k < |stones| ==> Exists(size, stones[k].row, stones[k].col)
    requires forall a: Position :: Covers(stones, a) <==> Exists(size, a.row, a.col) && actual[a.row][a.col] != Undecided
    modifies evaluation.positions
    ensures forall r, c :: 0 <= r < MAX_BOARD_SIZE && 0 <= c < MAX_BOARD_SIZE ==>
      evaluation.positions[r, c] == Rescored(size, actual, final, player, won, old(evaluation.positions[r, c]), r, c)
  {
    Reward(evaluation, pieces, player, won);
    Retire(evaluation, stones);
    forall r, c | 0 <= r < MAX_BOARD_SIZE && 0 <= c < MAX_BOARD_SIZE
      ensures evaluation.positions[r, c] == Rescored(size, actual, final, player, won, old(evaluation.positions[r, c]), r, c)
    {
      Rescoring(size, actual, final, pieces, stones, player, won,
                old(evaluation.positions[r, c]), evaluation.positions[r, c], Position(r, c));
    }
  }

  /** What `Rescore` gives a cell is its `Rescored` value. */
  lemma Rescoring(size: int, actual: Grid, final: Grid, pieces: seq<Piece>, stones: seq<Piece>,
                  player: Turn, won: Turn, before: int, after: int, a: Position)
    requires WellFormed(size, actual) && WellFormed(size, final)
    requires Covers(stones, a) <==> Exists(size, a.row, a.col) && actual[a.row][a.col] != Undecided
    requires Covers(pieces, a) <==> Exists(size, a.row, a.col)
    requires Exists(size, a.row, a.col) ==> OwnerAt(pieces, a) == final[a.row][a.col]
    requires after == if Covers(stones, a) then INT_MIN else before + Gain(pieces, a, player, won)
    ensures after == Rescored(size, actual, final, player, won, before, a.row, a.col)
  {
  }

  // ---------------------------------------------------------------------
  // The player.
  // ---------------------------------------------------------------------

  /** `Ai`: a colour, the board it studies and the scores of that board's cells. */
  class Ai {
    const player: Turn
    var board: Board
    var evaluation: BoardEvaluation

    ghost predicate Valid()
      reads this, board, board.blueGraph, board.blueGraph.limits, board.redGraph, board.redGraph.limits
    {
      && board.Valid() && evaluation.Valid()
      && evaluation.size == board.size && board.size <= MAX_BOARD_SIZE
    }

    /** A new player studies an empty all-human board of the largest size, with every score 0. */
    constructor (player: Turn)
      ensures Valid() && this.player == player && fresh(board) && fresh(evaluation) && fresh(evaluation.positions)
      ensures board.size == MAX_BOARD_SIZE && board.positions == EmptyGrid(MAX_BOARD_SIZE)
      ensures board.turn == Blue && board.winner == Undecided && board.movements == 0
      ensures evaluation.Zeroed()
    {
      this.player := player;
      board := new Board(MAX_BOARD_SIZE, HumanPlayers(true, true));
      evaluation := new BoardEvaluation(MAX_BOARD_SIZE);
    }

    /** `readBoard`: take over the game of `external`, with every score 0 at its size. */
    method ReadBoard(external: Board)
      requires Valid() && external.Consistent() && external.size <= MAX_BOARD_SIZE
      modifies this`evaluation, board
      ensures Valid() && board == old(board) && fresh(evaluation) && fresh(evaluation.positions)
      ensures board.size == old(external.size) && board.positions == old(external.positions)
      ensures board.turn == old(external.turn) && board.winner == old(external.winner)
      ensures board.movements == old(external.movements) && board.opening == old(external.opening)
      ensures evaluation.Zeroed()
    {
      board.Assign(external);
      Rescale();
    }

    /** `evaluation = BoardEvaluation(board.getSize())`: fresh scores, all 0, at the board's size. */
    method Rescale()
      requires board.Valid() && board.size <= MAX_BOARD_SIZE
      modifies this`evaluation
      ensures Valid() && fresh(evaluation) && fresh(evaluation.positions) && evaluation.Zeroed()
    {
      evaluation := new BoardEvaluation(board.size);
    }

    /**
     * `simulate`: play a copy of the board to the end and rescore. The
     * copy takes the pie rule when one move was made and `pieCoin` says
     * so, and is filled in the order `rowIds` x `colIds`; `final` and
     * `won` are its last owners and its winner. The board itself is left
     * as it is (only the scores may change).
     */
    method Simulate(pieCoin: bool, rowIds: seq<int>, colIds: seq<int>) returns (ghost final: Grid, ghost won: Turn)
      requires Valid() && board.turn != Undecided
      requires IsPermutation(rowIds, board.size) && IsPermutation(colIds, board.size)
      modifies evaluation.positions
      ensures WellFormed(board.size, final) && Full(board.size, final)
      ensures final == PlayoutGrid(board.size, board.positions, board.turn, board.movements, board.opening,
                                   pieCoin, rowIds, colIds)
      ensures forall r, c :: Exists(board.size, r, c) && board.positions[r][c] != Undecided ==>
        final[r][c] == if board.movements == 1 && pieCoin then Red else board.positions[r][c]
      ensures won == Outcome(board.size, final, Undecided)
      ensures forall r, c :: 0 <= r < MAX_BOARD_SIZE && 0 <= c < MAX_BOARD_SIZE ==>
        evaluation.positions[r, c]
          == Rescored(board.size, board.positions, final, player, won, old(evaluation.positions[r, c]), r, c)
    {
      ghost var n, actual := board.size, board.positions;
      var pieces, winner;
      pieces, winner, final := PlayCopy(board, pieCoin, rowIds, colIds);
      won := winner;
      var stones := board.ForEachPiece();
      forall a: Position | true ensures Covers(stones, a) <==> Exists(n, a.row, a.col) && actual[a.row][a.col] != Undecided {
        PiecesOwners(n, actual, stones, a);
      }
      Rescore(evaluation, pieces, stones, player, winner, n, actual, final);
    }

    /** `getBestPosition`: the evaluation's pick. */
    method GetBestPosition(coins: seq<bool>) returns (best: Position)
      requires Valid() && |coins| >= ScanLength(board.size)
      ensures board.size <= 0 ==> best == Position(0, 0)
      ensures 0 < board.size ==> Exists(board.size, best.row, best.col)
      ensures 0 < board.size ==> forall r, c :: Exists(board.size, r, c) ==>
        evaluation.positions[r, c] <= evaluation.positions[best.row, best.col]
    {
      best := evaluation.GetBestPosition(coins);
    }
  }
}
