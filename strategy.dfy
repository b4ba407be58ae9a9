/**
 * `AIStrategy`: the computer player. A fresh `Ai` reads the board, runs
 * `simulationCount + 1` playouts and answers the cell with the best score.
 */
module Strategies {
  import opened Common
  import opened Boards
  import opened MonteCarlo

  /** The random inputs of one `simulate`: the pie-rule coin and the two shuffles of `forEachEmptyPosition`. */
  datatype Draw = Draw(pieCoin: bool, rowIds: seq<int>, colIds: seq<int>)

  /** How often the loop `for (i = 0; i <= simulationCount; i++)` runs. */
  function Runs(simulationCount: int): nat
  {
    if simulationCount < 0 then 0 else simulationCount + 1
  }

  /** The grids the playouts drawn by `draws` end in, each started from the same position. */
  function Playouts(size: int, g: Grid, turn: Turn, movements: int, opening: Position, draws: seq<Draw>): (fs: seq<Grid>)
    requires WellFormed(size, g) && (movements == 1 ==> Exists(size, opening.row, opening.col))
    ensures |fs| == |draws|
    ensures AllWellFormed(size, fs)
  {
    seq(|draws|, k requires 0 <= k < |draws| =>
      PlayoutGrid(size, g, turn, movements, opening, draws[k].pieCoin, draws[k].rowIds, draws[k].colIds))
  }

  /** One more draw adds its own playout at the end. */
  lemma PlayoutsStep(size: int, g: Grid, turn: Turn, movements: int, opening: Position, draws: seq<Draw>, i: int)
    requires WellFormed(size, g) && (movements == 1 ==> Exists(size, opening.row, opening.col)) && 0 <= i < |draws|
    ensures Playouts(size, g, turn, movements, opening, draws[..i + 1])
         == Playouts(size, g, turn, movements, opening, draws[..i])
            + [PlayoutGrid(size, g, turn, movements, opening, draws[i].pieCoin, draws[i].rowIds, draws[i].colIds)]
  {
  }

  /** Every grid of `gs` is a grid of the board's size. */
  ghost predicate AllWellFormed(size: int, gs: seq<Grid>)
  {
    forall k :: 0 <= k < |gs| ==> WellFormed(size, gs[k])
  }

  /** Appending a grid of the board's size keeps every grid of that size. */
  lemma AllWellFormedAppend(size: int, gs: seq<Grid>, g: Grid)
    requires AllWellFormed(size, gs) && WellFormed(size, g)
    ensures AllWellFormed(size, gs + [g]) && (gs + [g])[..|gs|] == gs
  {
  }

  /**
   * The score of cell (r, c) for `player` after the playouts that ended in
   * `finals`, one `simulate` after another from a zeroed evaluation of
   * the board `g`.
   */
  ghost function Score(size: int, g: Grid, finals: seq<Grid>, player: Turn, r: int, c: int): int
    requires WellFormed(size, g) && AllWellFormed(size, finals)
    decreases |finals|
  {
    if finals == [] then 0
    else
      var last := finals[|finals| - 1];
      Rescored(size, g, last, player, Outcome(size, last, Undecided), Score(size, g, finals[..|finals| - 1], player, r, c), r, c)
  }

  /** Every score of the evaluation is the one the playouts `finals` give. */
  ghost predicate Scored(evaluation: BoardEvaluation, size: int, g: Grid, finals: seq<Grid>, player: Turn)
    reads evaluation.positions
    requires evaluation.Valid() && WellFormed(size, g) && AllWellFormed(size, finals)
  {
    forall r, c :: 0 <= r < MAX_BOARD_SIZE && 0 <= c < MAX_BOARD_SIZE ==>
      evaluation.positions[r, c] == Score(size, g, finals, player, r, c)
  }

  /** An evaluation with every score 0 is the one no playout has touched. */
  lemma ZeroScored(evaluation: BoardEvaluation, size: int, g: Grid, player: Turn)
    requires evaluation.Valid() && WellFormed(size, g) && evaluation.Zeroed()
    ensures Scored(evaluation, size, g, [], player)
  {
  }

  /** The score after one more playout is the rescoring of the score before by that playout. */
  lemma ScoreStep(size: int, g: Grid, finals: seq<Grid>, final: Grid, player: Turn, r: int, c: int)
    requires WellFormed(size, g) && WellFormed(size, final) && AllWellFormed(size, finals)
    ensures Score(size, g, finals + [final], player, r, c)
         == Rescored(size, g, final, player, Outcome(size, final, Undecided), Score(size, g, finals, player, r, c), r, c)
  {
    AllWellFormedAppend(size, finals, final);
  }

  /**
   * After at least one playout every stone of `g` has the lowest `int`,
   * and every empty cell has gained or lost at most one point per playout.
   */
  lemma {:induction false} ScoreBounds(size: int, g: Grid, finals: seq<Grid>, player: Turn, r: int, c: int)
    requires WellFormed(size, g) && AllWellFormed(size, finals)
    requires Exists(size, r, c)
    ensures g[r][c] != Undecided && 0 < |finals| ==> Score(size, g, finals, player, r, c) == INT_MIN
    ensures g[r][c] == Undecided ==> -|finals| <= Score(size, g, finals, player, r, c) <= |finals|
    decreases |finals|
  {
    if finals != [] {
      ScoreBounds(size, g, finals[..|finals| - 1], player, r, c);
    }
  }

  /**
   * A best cell after at least one playout is empty when some cell is:
   * the empty cell scores above the lowest `int`, which every stone has.
   */
  lemma BestIsEmpty(size: int, g: Grid, finals: seq<Grid>, player: Turn, best: Position, empty: Position)
    requires WellFormed(size, g) && AllWellFormed(size, finals)
    requires 0 < |finals| <= INT_MAX
    requires EmptyAt(size, g, empty) && Exists(size, best.row, best.col)
    requires Score(size, g, finals, player, empty.row, empty.col) <= Score(size, g, finals, player, best.row, best.col)
    ensures EmptyAt(size, g, best)
  {
    ScoreBounds(size, g, finals, player, empty.row, empty.col);
    ScoreBounds(size, g, finals, player, best.row, best.col);
  }

  /**
   * One pass of the loop of `getNextMove`: a `simulate`, which adds the
   * playout of `draw` to those already scored.
   */
  method RunOnce(ai: Ai, draw: Draw, ghost size: int, ghost g: Grid, ghost t: Turn, ghost m: int, ghost o: Position,
                 ghost finals: seq<Grid>)
    returns (ghost final: Grid)
    requires ai.Valid() && ai.board.size == size && ai.board.positions == g && ai.board.turn == t && t != Undecided
    requires ai.board.movements == m && ai.board.opening == o
    requires WellFormed(size, g) && (m == 1 ==> Exists(size, o.row, o.col))
    requires IsPermutation(draw.rowIds, size) && IsPermutation(draw.colIds, size)
    requires AllWellFormed(size, finals) && Scored(ai.evaluation, size, g, finals, ai.player)
    modifies ai.evaluation.positions
    ensures ai.Valid() && ai.board.size == size && ai.board.positions == g && ai.board.turn == t
    ensures final == PlayoutGrid(size, g, t, m, o, draw.pieCoin, draw.rowIds, draw.colIds)
    ensures AllWellFormed(size, finals + [final]) && Scored(ai.evaluation, size, g, finals + [final], ai.player)
  {
    ghost var won;
    final, won := ai.Simulate(draw.pieCoin, draw.rowIds, draw.colIds);
    AllWellFormedAppend(size, finals, final);
    forall r, c | 0 <= r < MAX_BOARD_SIZE && 0 <= c < MAX_BOARD_SIZE
      ensures ai.evaluation.positions[r, c] == Score(size, g, finals + [final], ai.player, r, c)
    {
      ScoreStep(size, g, finals, final, ai.player, r, c);
    }
  }

  /** `Ai ai(player); ai.readBoard(board);`: a fresh player on the board's game, every score 0. */
  method Prepare(player: Turn, board: Board) returns (ai: Ai)
    requires board.Consistent() && board.size <= MAX_BOARD_SIZE && board.turn != Undecided
    ensures fresh(ai) && fresh(ai.evaluation.positions) && ai.Valid() && ai.player == player
    ensures ai.board.size == old(board.size) && ai.board.positions == old(board.positions)
    ensures ai.board.turn == old(board.turn) && ai.board.movements == old(board.movements)
    ensures ai.board.opening == old(board.opening)
    ensures Scored(ai.evaluation, old(board.size), old(board.positions), [], player)
  {
    ai := new Ai(player);
    ai.ReadBoard(board);
    ZeroScored(ai.evaluation, ai.board.size, ai.board.positions, player);
  }

  /**
   * The loop `for (i = 0; i <= simulationCount; i++) ai.simulate();`: one
   * playout per draw, in order, and every score the total those playouts
   * give.
   */
  method Train(ai: Ai, draws: seq<Draw>, simulationCount: int,
               ghost size: int, ghost g: Grid, ghost t: Turn, ghost m: int, ghost o: Position)
    requires ai.Valid() && ai.board.size == size && ai.board.positions == g && ai.board.turn == t && t != Undecided
    requires ai.board.movements == m && ai.board.opening == o
    requires WellFormed(size, g) && (m == 1 ==> Exists(size, o.row, o.col))
    requires simulationCount < INT_MAX && |draws| == Runs(simulationCount)
    requires forall k :: 0 <= k < |draws| ==> IsPermutation(draws[k].rowIds, size) && IsPermutation(draws[k].colIds, size)
    requires Scored(ai.evaluation, size, g, [], ai.player)
    modifies ai.evaluation.positions
    ensures ai.Valid() && ai.board.size == size && ai.board.positions == g
    ensures Scored(ai.evaluation, size, g, Playouts(size, g, t, m, o, draws), ai.player)
  {
    assert draws[..0] == [];
    ghost var finals: seq<Grid> := [];
    var i := 0;
    while i <= simulationCount
      invariant 0 <= i <= |draws|
      invariant ai.Valid() && ai.board.size == size && ai.board.positions == g && ai.board.turn == t
      invariant ai.board.movements == m && ai.board.opening == o
      invariant finals == Playouts(size, g, t, m, o, draws[..i])
      invariant AllWellFormed(size, finals)
      invariant Scored(ai.evaluation, size, g, finals, ai.player)
    {
      PlayoutsStep(size, g, t, m, o, draws, i);
      ghost var final := RunOnce(ai, draws[i], size, g, t, m, o, finals);
      finals := finals + [final];
      i := i + 1;
    }
    assert i == |draws| && draws[..i] == draws;
  }

  /**
   * `ai.getBestPosition()` after the playouts `finals`: a cell with the
   * highest total score, and an empty one when the board has one and at
   * least one playout ran.
   */
  method Pick(ai: Ai, coins: seq<bool>, ghost size: int, ghost g: Grid, ghost finals: seq<Grid>) returns (move: Position)
    requires ai.Valid() && ai.board.size == size && ai.board.positions == g
    requires AllWellFormed(size, finals)
    requires |coins| >= ScanLength(size) && |finals| <= INT_MAX
    requires Scored(ai.evaluation, size, g, finals, ai.player)
    ensures Exists(size, move.row, move.col)
    ensures forall r, c :: Exists(size, r, c) ==>
      Score(size, g, finals, ai.player, r, c) <= Score(size, g, finals, ai.player, move.row, move.col)
    ensures 0 < |finals| && (exists a :: EmptyAt(size, g, a)) ==> EmptyAt(size, g, move)
  {
    move := ai.GetBestPosition(coins);
    if 0 < |finals| && exists a :: EmptyAt(size, g, a) {
      var empty :| EmptyAt(size, g, empty);
      BestIsEmpty(size, g, finals, ai.player, move, empty);
    }
  }

  /** The playouts of `getNextMove` and the pick after them, for a fresh player on the game (g, t, m, o). */
  method Decide(ai: Ai, draws: seq<Draw>, coins: seq<bool>, simulationCount: int,
                ghost size: int, ghost g: Grid, ghost t: Turn, ghost m: int, ghost o: Position)
    returns (move: Position)
    requires ai.Valid() && ai.board.size == size && ai.board.positions == g && ai.board.turn == t && t != Undecided
    requires ai.board.movements == m && ai.board.opening == o
    requires WellFormed(size, g) && (m == 1 ==> Exists(size, o.row, o.col))
    requires simulationCount < INT_MAX && |draws| == Runs(simulationCount)
    requires forall k :: 0 <= k < |draws| ==> IsPermutation(draws[k].rowIds, size) && IsPermutation(draws[k].colIds, size)
    requires |coins| >= ScanLength(size) && Scored(ai.evaluation, size, g, [], ai.player)
    modifies ai.evaluation.positions
    ensures Exists(size, move.row, move.col)
    ensures var finals := Playouts(size, g, t, m, o, draws);
      forall r, c :: Exists(size, r, c) ==>
        Score(size, g, finals, ai.player, r, c) <= Score(size, g, finals, ai.player, move.row, move.col)
    ensures 0 <= simulationCount && (exists a :: EmptyAt(size, g, a)) ==> EmptyAt(size, g, move)
  {
    Train(ai, draws, simulationCount, size, g, t, m, o);
    move := Pick(ai, coins, size, g, Playouts(size, g, t, m, o, draws));
  }

  class AIStrategy {
    const player: Turn
    const simulationCount: int

    /** A strategy for `player`, 100 playouts per move unless told otherwise. */
    constructor (player: Turn, simulationCount: int := 100)
      ensures this.player == player && this.simulationCount == simulationCount
    {
      this.player := player;
      this.simulationCount := simulationCount;
    }

    /**
     * `getNextMove`: `draws` holds the random inputs of the playouts, one
     * per run, and `coins` the tie-break flips of the final pick. The
     * answer is a cell of the board with the highest score, and an empty
     * cell whenever the board has one and at least one playout ran.
     */
    method GetNextMove(board: Board, draws: seq<Draw>, coins: seq<bool>) returns (move: Position)
      requires board.Consistent() && board.size <= MAX_BOARD_SIZE && board.turn != Undecided
      requires simulationCount < INT_MAX && |draws| == Runs(simulationCount)
      requires forall k :: 0 <= k < |draws| ==>
        IsPermutation(draws[k].rowIds, board.size) && IsPermutation(draws[k].colIds, board.size)
      requires |coins| >= ScanLength(board.size)
      ensures Exists(board.size, move.row, move.col)
      ensures var finals := Playouts(board.size, board.positions, board.turn, board.movements, board.opening, draws);
        forall r, c :: Exists(board.size, r, c) ==>
          Score(board.size, board.positions, finals, player, r, c)
            <= Score(board.size, board.positions, finals, player, move.row, move.col)
      ensures 0 <= simulationCount && (exists a :: EmptyAt(board.size, board.positions, a)) ==>
        EmptyAt(board.size, board.positions, move)
    {
      ghost var n, g, t, m, o := board.size, board.positions, board.turn, board.movements, board.opening;
      var ai := Prepare(player, board);
      move := Decide(ai, draws, coins, simulationCount, n, g, t, m, o);
    }
  }
}
