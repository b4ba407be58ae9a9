/**
 * Types shared by every layer of the game: the three-valued `Turn`
 * (which doubles as the owner of a cell), board positions, and the
 * failures the C++ code reports by throwing.
 */
module Common {

  /** A player colour; `Undecided` is also "nobody" (an empty cell, no winner, game over). */
  datatype Turn = Undecided | Blue | Red

  /** A (row, column) pair. */
  datatype Position = Position(row: int, col: int)

  /** Which players are driven by a human. */
  datatype HumanPlayers = HumanPlayers(blue: bool, red: bool)

  /** The exceptions thrown by the core, one constructor per distinct condition. */
  datatype Error =
    | OutOfRange        // std::out_of_range: an index outside the graph or the score grid
    | GameOver          // std::runtime_error: a move after the game ended
    | CellTaken         // std::invalid_argument: the cell is already owned
    | PieRuleRefused    // std::invalid_argument: the swap is asked for outside its window

  /** Outcome of a call that returns nothing but may throw. */
  datatype Status = Done | Failed(error: Error)

  /** Outcome of a call that returns a value but may throw. */
  datatype Result<T> = Ok(value: T) | Err(error: Error)

  /** The sentinels of the C++ `int` type used by the core. */
  const INT_MAX: int := 0x7fff_ffff
  const INT_MIN: int := -0x8000_0000

  /** A board size whose cells all have `int` node numbers. */
  type BoardBound = n: nat | 1 <= n && n * n < INT_MAX witness 1

  /**
   * The largest board the fixed-size score grid can hold. Its value is
   * not part of the modelled files, so it is left unspecified: positive,
   * and small enough that the board's node numbers fit an `int`.
   */
  const MAX_BOARD_SIZE: BoardBound

  /** The colour that moves after `t`; `Undecided` stays `Undecided`. */
  function Other(t: Turn): (o: Turn)
    ensures t == Undecided <==> o == Undecided
    ensures t != Undecided ==> o != t
  {
    match t
    case Blue => Red
    case Red => Blue
    case Undecided => Undecided
  }
}
