/**
 * The game board of `src/board.cpp`: a square grid of owners, whose turn
 * it is, the winner, the number of moves and the opening cell, and one
 * graph per player over the cells `row * size + col`.
 *
 * Each player's graph holds two border chains and, in both directions,
 * the pairs of that player's cells that touch on the hex grid. Red's
 * chains run along rows 0 and size-1, Blue's along columns 0 and size-1,
 * so cell (0, 0) and cell (size-1, size-1) stand for the two borders a
 * player has to join.
 */
module Boards {
  import opened Common
  import opened Graphs
  import opened ShortestPaths

  /** The owners of the cells, row by row. */
  type Grid = seq<seq<Turn>>

  // ---------------------------------------------------------------------
  // Cells.
  // ---------------------------------------------------------------------

  /** `exists`: the cell lies on a `size` x `size` board. */
  predicate Exists(size: int, row: int, col: int)
  {
    0 <= row < size && 0 <= col < size
  }

  /** `cell`: the graph node of a cell, or -1 off the board. */
  function Cell(size: int, row: int, col: int): int
  {
    if !Exists(size, row, col) then -1 else row * size + col
  }

  lemma CellRange(size: int, row: int, col: int)
    requires Exists(size, row, col)
    ensures 0 <= Cell(size, row, col) < size * size
  {
    assert row * size <= (size - 1) * size by {
      MulMonotone(row, size - 1, size);
    }
  }

  lemma MulMonotone(a: int, b: int, n: nat)
    requires a <= b
    ensures a * n <= b * n
  {
    assert b * n - a * n == (b - a) * n;
  }

  /** Distinct cells have distinct nodes. */
  lemma CellInjective(size: int, r1: int, c1: int, r2: int, c2: int)
    requires Exists(size, r1, c1) && Exists(size, r2, c2)
    requires Cell(size, r1, c1) == Cell(size, r2, c2)
    ensures r1 == r2 && c1 == c2
  {
    if r1 < r2 {
      RowsApart(size, r1, c1, r2, c2);
    } else if r2 < r1 {
      RowsApart(size, r2, c2, r1, c1);
    }
  }

  /** A cell of an earlier row has a smaller node. */
  lemma RowsApart(size: int, r1: int, c1: int, r2: int, c2: int)
    requires Exists(size, r1, c1) && Exists(size, r2, c2) && r1 < r2
    ensures Cell(size, r1, c1) < Cell(size, r2, c2)
  {
    MulMonotone(r1 + 1, r2, size);
    assert (r1 + 1) * size == r1 * size + size;
  }

  /** Every row has `size` cells. */
  predicate WellFormed(size: int, g: Grid)
  {
    |g| == size && forall r :: 0 <= r < size ==> |g[r]| == size
  }

  function EmptyGrid(size: nat): (g: Grid)
    ensures WellFormed(size, g)
    ensures forall r, c :: Exists(size, r, c) ==> g[r][c] == Undecided
  {
    seq(size, _ => seq(size, _ => Undecided))
  }

  /** `g` with cell (row, col) owned by `t`. */
  function Place(g: Grid, row: int, col: int, t: Turn): Grid
    requires 0 <= row < |g| && 0 <= col < |g[row]|
  {
    g[row := g[row][col := t]]
  }

  /** The occupied cells. */
  ghost function Stones(size: int, g: Grid): set<Position>
    requires WellFormed(size, g)
  {
    set r, c | 0 <= r < size && 0 <= c < size && g[r][c] != Undecided :: Position(r, c)
  }

  // ---------------------------------------------------------------------
  // Hex adjacency.
  // ---------------------------------------------------------------------

  /** The offsets of the six neighbours of a cell, in the order `connectBlue`/`connectRed` try them. */
  const Offsets: seq<(int, int)> := [(-1, 0), (-1, 1), (0, -1), (0, 1), (1, -1), (1, 0)]

  predicate Adjacent(a: Position, b: Position)
  {
    (b.row - a.row, b.col - a.col) in Offsets
  }

  /** The neighbour relation is symmetric and never relates a cell to itself. */
  lemma AdjacentSymmetric(a: Position, b: Position)
    ensures Adjacent(a, b) <==> Adjacent(b, a)
    ensures Adjacent(a, b) ==> a != b
  {
  }

  /** The cells of a `size` x `size` board. */
  ghost function Cells(size: int): (s: set<Position>)
    ensures forall a :: a in s <==> Exists(size, a.row, a.col)
  {
    var s := set r, c | 0 <= r < size && 0 <= c < size :: Position(r, c);
    assert forall a: Position :: Exists(size, a.row, a.col) ==> a == Position(a.row, a.col);
    s
  }

  // ---------------------------------------------------------------------
  // The links each player's graph holds, as pairs of cells.
  // ---------------------------------------------------------------------

  /** A directed edge between two cells. */
  type Link = (Position, Position)

  /** Both directions between the cells (row, c) and (row, c + 1), for the columns c before `upTo` that have a right neighbour. */
  ghost function RowChain(size: int, row: int, upTo: int): set<Link>
    decreases upTo
  {
    if upTo <= 0 then {}
    else
      var c := upTo - 1;
      RowChain(size, row, c)
      + (if Exists(size, row, c + 1) then {(Position(row, c), Position(row, c + 1)), (Position(row, c + 1), Position(row, c))} else {})
  }

  /** Both directions between the cells (r, col) and (r + 1, col), for the rows r before `upTo` that have a lower neighbour. */
  ghost function ColChain(size: int, col: int, upTo: int): set<Link>
    decreases upTo
  {
    if upTo <= 0 then {}
    else
      var r := upTo - 1;
      ColChain(size, col, r)
      + (if Exists(size, r + 1, col) then {(Position(r, col), Position(r + 1, col)), (Position(r + 1, col), Position(r, col))} else {})
  }

  /** What `connectBorders` wires: rows 0 and size-1 for Red, columns 0 and size-1 for Blue. */
  ghost function BorderLinks(size: int, p: Turn): set<Link>
  {
    match p
    case Red => RowChain(size, 0, size) + RowChain(size, size - 1, size)
    case Blue => ColChain(size, 0, size) + ColChain(size, size - 1, size)
    case Undecided => {}
  }

  /** Both directions between every two touching cells owned by `p`. */
  ghost function StoneLinks(size: int, g: Grid, p: Turn): set<Link>
    requires WellFormed(size, g)
  {
    set a, b | a in Cells(size) && b in Cells(size) && Adjacent(a, b)
               && g[a.row][a.col] == p && g[b.row][b.col] == p
      :: (a, b)
  }

  /** The links of player `p` on a board whose owners are `g`. */
  ghost function Links(size: int, g: Grid, p: Turn): set<Link>
    requires WellFormed(size, g)
  {
    BorderLinks(size, p) + StoneLinks(size, g, p)
  }

  /** Both directions between `at` and each of its neighbours owned by `p`. */
  ghost function NeighbourLinks(size: int, g: Grid, p: Turn, at: Position): set<Link>
    requires WellFormed(size, g)
  {
    (set b | b in Cells(size) && Adjacent(at, b) && g[b.row][b.col] == p :: (at, b))
    + (set b | b in Cells(size) && Adjacent(at, b) && g[b.row][b.col] == p :: (b, at))
  }

  /** What one guarded connect of `connectBlue`/`connectRed` adds: the neighbour at the offset, if it is owned by `p`. */
  ghost function Stub(size: int, g: Grid, p: Turn, at: Position, dr: int, dc: int): set<Link>
    requires WellFormed(size, g)
  {
    var b := Position(at.row + dr, at.col + dc);
    if Exists(size, b.row, b.col) && g[b.row][b.col] == p then {(at, b), (b, at)} else {}
  }

  /** What the six guarded connects of `connectBlue`/`connectRed` add together. */
  ghost function Stubs(size: int, g: Grid, p: Turn, at: Position): set<Link>
    requires WellFormed(size, g)
  {
    Stub(size, g, p, at, -1, 0) + Stub(size, g, p, at, -1, 1)
    + Stub(size, g, p, at, 0, -1) + Stub(size, g, p, at, 0, 1)
    + Stub(size, g, p, at, 1, -1) + Stub(size, g, p, at, 1, 0)
  }

  /** The six guarded connects together wire exactly the neighbours owned by `p`. */
  lemma NeighbourStubs(size: int, g: Grid, p: Turn, at: Position)
    requires WellFormed(size, g)
    ensures NeighbourLinks(size, g, p, at) == Stubs(size, g, p, at)
  {
    NeighboursInStubs(size, g, p, at);
    StubIncluded(size, g, p, at, -1, 0);
    StubIncluded(size, g, p, at, -1, 1);
    StubIncluded(size, g, p, at, 0, -1);
    StubIncluded(size, g, p, at, 0, 1);
    StubIncluded(size, g, p, at, 1, -1);
    StubIncluded(size, g, p, at, 1, 0);
  }

  lemma NeighboursInStubs(size: int, g: Grid, p: Turn, at: Position)
    requires WellFormed(size, g)
    ensures NeighbourLinks(size, g, p, at) <= Stubs(size, g, p, at)
  {
    forall e | e in NeighbourLinks(size, g, p, at) ensures e in Stubs(size, g, p, at) {
      NeighbourInStub(size, g, p, at, e);
    }
  }

  lemma NeighbourInStub(size: int, g: Grid, p: Turn, at: Position, e: Link)
    requires WellFormed(size, g) && e in NeighbourLinks(size, g, p, at)
    ensures e in Stubs(size, g, p, at)
  {
    var b := if e.0 == at then e.1 else e.0;
    var dr, dc := b.row - at.row, b.col - at.col;
    assert b == Position(at.row + dr, at.col + dc);
    assert Exists(size, b.row, b.col) && g[b.row][b.col] == p;
    assert e in Stub(size, g, p, at, dr, dc);
    StubInStubs(size, g, p, at, dr, dc);
  }

  lemma StubInStubs(size: int, g: Grid, p: Turn, at: Position, dr: int, dc: int)
    requires WellFormed(size, g) && (dr, dc) in Offsets
    ensures Stub(size, g, p, at, dr, dc) <= Stubs(size, g, p, at)
  {
    var k :| 0 <= k < |Offsets| && Offsets[k] == (dr, dc);
    if k == 0 { assert (dr, dc) == (-1, 0); }
    else if k == 1 { assert (dr, dc) == (-1, 1); }
    else if k == 2 { assert (dr, dc) == (0, -1); }
    else if k == 3 { assert (dr, dc) == (0, 1); }
    else if k == 4 { assert (dr, dc) == (1, -1); }
    else { assert (dr, dc) == (1, 0); }
  }

  lemma StubIncluded(size: int, g: Grid, p: Turn, at: Position, dr: int, dc: int)
    requires WellFormed(size, g) && (dr, dc) in Offsets
    ensures Stub(size, g, p, at, dr, dc) <= NeighbourLinks(size, g, p, at)
  {
    var b := Position(at.row + dr, at.col + dc);
    if Exists(size, b.row, b.col) && g[b.row][b.col] == p {
      assert Adjacent(at, b);
      assert (at, b) in NeighbourLinks(size, g, p, at);
      assert (b, at) in NeighbourLinks(size, g, p, at);
    }
  }

  // ---------------------------------------------------------------------
  // From cells to graph nodes.
  // ---------------------------------------------------------------------

  /** The graph node of a cell. */
  function Node(size: int, a: Position): int
  {
    Cell(size, a.row, a.col)
  }

  /** The node pairs of a set of links. */
  ghost function Nodes(size: int, s: set<Link>): set<(int, int)>
  {
    set l | l in s :: (Node(size, l.0), Node(size, l.1))
  }

  lemma NodesUnion(size: int, s: set<Link>, t: set<Link>)
    ensures Nodes(size, s + t) == Nodes(size, s) + Nodes(size, t)
  {
  }

  lemma NodesPair(size: int, a: Position, b: Position)
    ensures Nodes(size, {(a, b), (b, a)}) == {(Node(size, a), Node(size, b)), (Node(size, b), Node(size, a))}
  {
    assert (a, b) in {(a, b), (b, a)};
    assert (b, a) in {(a, b), (b, a)};
  }

  /** The edge relation of player `p`'s graph on a board whose owners are `g`. */
  ghost function PlayerEdges(size: int, g: Grid, p: Turn): set<(int, int)>
    requires WellFormed(size, g)
  {
    Nodes(size, Links(size, g, p))
  }

  // ---------------------------------------------------------------------
  // How claiming a cell changes the links.
  // ---------------------------------------------------------------------

  /**
   * Claiming an empty cell for `p` adds exactly the links between it and
   * its neighbours owned by `p`; the other player's links do not change.
   */
  lemma PlaceStone(size: int, g: Grid, at: Position, p: Turn, q: Turn)
    requires WellFormed(size, g) && Exists(size, at.row, at.col) && g[at.row][at.col] == Undecided
    requires p != Undecided && q != Undecided && q != p
    ensures WellFormed(size, Place(g, at.row, at.col, p))
    ensures StoneLinks(size, Place(g, at.row, at.col, p), p)
         == StoneLinks(size, g, p) + NeighbourLinks(size, Place(g, at.row, at.col, p), p, at)
    ensures StoneLinks(size, Place(g, at.row, at.col, p), q) == StoneLinks(size, g, q)
  {
    PlaceStoneGains(size, g, at, p);
    PlaceStoneKeeps(size, g, at, p, q);
  }

  lemma PlaceStoneGains(size: int, g: Grid, at: Position, p: Turn)
    requires WellFormed(size, g) && Exists(size, at.row, at.col) && g[at.row][at.col] == Undecided
    requires p != Undecided
    ensures WellFormed(size, Place(g, at.row, at.col, p))
    ensures StoneLinks(size, Place(g, at.row, at.col, p), p)
         == StoneLinks(size, g, p) + NeighbourLinks(size, Place(g, at.row, at.col, p), p, at)
  {
    GainsWithin(size, g, at, p);
    GainsCover(size, g, at, p);
  }

  lemma GainsWithin(size: int, g: Grid, at: Position, p: Turn)
    requires WellFormed(size, g) && Exists(size, at.row, at.col) && p != Undecided
    ensures WellFormed(size, Place(g, at.row, at.col, p))
    ensures StoneLinks(size, Place(g, at.row, at.col, p), p)
         <= StoneLinks(size, g, p) + NeighbourLinks(size, Place(g, at.row, at.col, p), p, at)
  {
    var g' := Place(g, at.row, at.col, p);
    forall e | e in StoneLinks(size, g', p)
      ensures e in StoneLinks(size, g, p) + NeighbourLinks(size, g', p, at)
    {
      AdjacentSymmetric(e.0, e.1);
    }
  }

  lemma GainsCover(size: int, g: Grid, at: Position, p: Turn)
    requires WellFormed(size, g) && Exists(size, at.row, at.col) && g[at.row][at.col] == Undecided
    requires p != Undecided
    ensures WellFormed(size, Place(g, at.row, at.col, p))
    ensures StoneLinks(size, g, p) + NeighbourLinks(size, Place(g, at.row, at.col, p), p, at)
         <= StoneLinks(size, Place(g, at.row, at.col, p), p)
  {
    var g' := Place(g, at.row, at.col, p);
    forall e | e in NeighbourLinks(size, g', p, at) ensures e in StoneLinks(size, g', p) {
      AdjacentSymmetric(e.0, e.1);
    }
    forall e | e in StoneLinks(size, g, p) ensures e in StoneLinks(size, g', p) {
    }
  }

  lemma PlaceStoneKeeps(size: int, g: Grid, at: Position, p: Turn, q: Turn)
    requires WellFormed(size, g) && Exists(size, at.row, at.col) && g[at.row][at.col] == Undecided
    requires q != Undecided && q != p
    ensures WellFormed(size, Place(g, at.row, at.col, p))
    ensures StoneLinks(size, Place(g, at.row, at.col, p), q) == StoneLinks(size, g, q)
  {
    var g' := Place(g, at.row, at.col, p);
    forall e | e in StoneLinks(size, g', q) ensures e in StoneLinks(size, g, q) {
    }
    forall e | e in StoneLinks(size, g, q) ensures e in StoneLinks(size, g', q) {
    }
  }

  /** No cell other than `a` is occupied; with `a` off the board, the board is empty. */
  predicate OnlyAt(size: int, g: Grid, a: Position)
    requires WellFormed(size, g)
  {
    forall r, c :: 0 <= r < size && 0 <= c < size && g[r][c] != Undecided ==> Position(r, c) == a
  }

  /** With at most one stone on the board no two cells of one colour touch. */
  lemma LoneStone(size: int, g: Grid, p: Turn, a: Position)
    requires WellFormed(size, g) && OnlyAt(size, g, a) && p != Undecided
    ensures StoneLinks(size, g, p) == {}
  {
    if e :| e in StoneLinks(size, g, p) {
      AdjacentSymmetric(e.0, e.1);
      assert false;
    }
  }

  /** The empty board has no stones and no stone edges. */
  lemma EmptyBoard(size: nat, p: Turn)
    requires p != Undecided
    ensures OnlyAt(size, EmptyGrid(size), Position(-1, -1))
    ensures Stones(size, EmptyGrid(size)) == {}
    ensures StoneLinks(size, EmptyGrid(size), p) == {}
  {
    LoneStone(size, EmptyGrid(size), p, Position(-1, -1));
  }

  /** On the empty board a player's edges are the border chains alone. */
  lemma EmptyEdges(size: nat, p: Turn)
    requires p != Undecided
    ensures PlayerEdges(size, EmptyGrid(size), p) == {} + Nodes(size, BorderLinks(size, p))
  {
    EmptyBoard(size, p);
    assert Links(size, EmptyGrid(size), p) == BorderLinks(size, p);
  }

  /**
   * What claiming the empty cell `at` for `p` does to the two edge
   * relations: `p`'s gains the links to `at`'s neighbours owned by `p`,
   * the other player's stays as it was.
   */
  lemma ClaimEdges(size: int, g: Grid, at: Position, p: Turn)
    requires WellFormed(size, g) && Exists(size, at.row, at.col) && g[at.row][at.col] == Undecided
    requires p != Undecided
    ensures WellFormed(size, Place(g, at.row, at.col, p))
    ensures PlayerEdges(size, Place(g, at.row, at.col, p), p)
         == PlayerEdges(size, g, p) + Nodes(size, NeighbourLinks(size, Place(g, at.row, at.col, p), p, at))
    ensures PlayerEdges(size, Place(g, at.row, at.col, p), Other(p)) == PlayerEdges(size, g, Other(p))
  {
    ClaimGains(size, g, at, p);
    var g' := Place(g, at.row, at.col, p);
    PlaceStoneKeeps(size, g, at, p, Other(p));
    assert Links(size, g', Other(p)) == Links(size, g, Other(p));
  }

  /** The part of `ClaimEdges` about the claiming player's relation. */
  lemma ClaimGains(size: int, g: Grid, at: Position, p: Turn)
    requires WellFormed(size, g) && Exists(size, at.row, at.col) && g[at.row][at.col] == Undecided
    requires p != Undecided
    ensures WellFormed(size, Place(g, at.row, at.col, p))
    ensures PlayerEdges(size, Place(g, at.row, at.col, p), p)
         == PlayerEdges(size, g, p) + Nodes(size, NeighbourLinks(size, Place(g, at.row, at.col, p), p, at))
  {
    var g' := Place(g, at.row, at.col, p);
    PlaceStoneGains(size, g, at, p);
    assert Links(size, g', p) == Links(size, g, p) + NeighbourLinks(size, g', p, at);
    NodesUnion(size, Links(size, g, p), NeighbourLinks(size, g', p, at));
  }

  // ---------------------------------------------------------------------
  // Winning.
  // ---------------------------------------------------------------------

  /** `p`'s graph joins the node of cell (0, 0) to the node of cell (size-1, size-1). */
  ghost predicate Connects(size: int, g: Grid, p: Turn)
    requires WellFormed(size, g)
  {
    Joined(PlayerEdges(size, g, p), Cell(size, 0, 0), Cell(size, size - 1, size - 1))
  }

  /** Some player's graph joins the two corner cells. */
  ghost predicate Decided(size: int, g: Grid)
    requires WellFormed(size, g)
  {
    Connects(size, g, Blue) || Connects(size, g, Red)
  }

  /** The winner `checkGame` records: Blue if Blue joins the corners, then Red if Red does (Red prevails), else `prior`. */
  ghost function Outcome(size: int, g: Grid, prior: Turn): Turn
    requires WellFormed(size, g)
  {
    if Connects(size, g, Red) then Red else if Connects(size, g, Blue) then Blue else prior
  }

  // ---------------------------------------------------------------------
  // The bookkeeping of moves.
  // ---------------------------------------------------------------------

  /**
   * The bookkeeping of moves: the game is over exactly when there is a
   * winner; Blue opens; before the first move the board is empty and the
   * opening is unset, after it the opening is the only stone, and from then
   * on the opening stays occupied.
   */
  predicate Bookkeeping(size: int, g: Grid, turn: Turn, winner: Turn, movements: int, opening: Position)
    requires WellFormed(size, g)
  {
    && (turn == Undecided <==> winner != Undecided)
    && 0 <= movements
    && (movements == 0 ==> turn != Red && opening == Position(-1, -1) && OnlyAt(size, g, opening))
    && (movements == 1 ==> turn != Blue && OnlyAt(size, g, opening))
    && (movements >= 1 ==> Exists(size, opening.row, opening.col) && g[opening.row][opening.col] != Undecided)
  }

  /**
   * A move by `turn` on an empty cell keeps the bookkeeping, and the
   * "no opening yet" test of `set` holds exactly before the first move.
   */
  lemma SetBookkeeping(size: int, g: Grid, turn: Turn, winner: Turn, movements: int, opening: Position,
                       at: Position, checkWinner: bool)
    requires WellFormed(size, g) && Bookkeeping(size, g, turn, winner, movements, opening)
    requires Exists(size, at.row, at.col) && g[at.row][at.col] == Undecided && turn != Undecided
    ensures (opening.row == -1 || opening.col == -1) <==> movements == 0
    ensures WellFormed(size, Place(g, at.row, at.col, turn))
    ensures var g' := Place(g, at.row, at.col, turn);
      Bookkeeping(size, g', if checkWinner && Decided(size, g') then Undecided else Other(turn),
                  if checkWinner then Outcome(size, g', winner) else winner,
                  movements + 1, if movements == 0 then at else opening)
  {
    var g' := Place(g, at.row, at.col, turn);
    if movements == 0 {
      forall r, c | 0 <= r < size && 0 <= c < size && Position(r, c) != at ensures g'[r][c] == Undecided {
        assert g'[r][c] == g[r][c];
      }
    }
  }

  /** Red taking Blue's lone opening over keeps the bookkeeping, and the opening is still the only stone. */
  lemma PieBookkeeping(size: int, g: Grid, winner: Turn, opening: Position)
    requires WellFormed(size, g) && Bookkeeping(size, g, Red, winner, 1, opening)
    ensures Exists(size, opening.row, opening.col)
    ensures var g' := Place(g, opening.row, opening.col, Red);
      && WellFormed(size, g') && OnlyAt(size, g', opening)
      && Bookkeeping(size, g', Blue, winner, 2, opening)
  {
  }

  // ---------------------------------------------------------------------
  // Traversal orders.
  // ---------------------------------------------------------------------

  /** A cell and its owner, as `forEachPiece` reports them. */
  datatype Piece = Piece(row: int, col: int, owner: Turn)

  /** The cell a piece stands on. */
  function Spot(p: Piece): Position
  {
    Position(p.row, p.col)
  }

  ghost function Spots(ps: seq<Piece>): set<Position>
  {
    set k | 0 <= k < |ps| :: Spot(ps[k])
  }

  /** Row-major order: the row first, then the column. */
  predicate Before(a: Position, b: Position)
  {
    a.row < b.row || (a.row == b.row && a.col < b.col)
  }

  predicate Distinct<T(==)>(s: seq<T>)
  {
    forall i, j :: 0 <= i < j < |s| ==> s[i] != s[j]
  }

  /** `ids` lists every index in [0, n) exactly once. */
  predicate IsPermutation(ids: seq<int>, n: int)
  {
    && |ids| == n
    && (forall i :: 0 <= i < |ids| ==> 0 <= ids[i] < n)
    && (forall x :: 0 <= x < n ==> x in ids)
    && Distinct(ids)
  }


  /** The cells (r, cs[0]), (r, cs[1]), ... */
  function Row(r: int, cs: seq<int>): (ps: seq<Position>)
    ensures |ps| == |cs|
    ensures forall j :: 0 <= j < |cs| ==> ps[j] == Position(r, cs[j])
  {
    seq(|cs|, j requires 0 <= j < |cs| => Position(r, cs[j]))
  }

  /** The visiting order of `forEachEmptyPosition`: every row index of `rs` in turn, each with every column index of `cs`. */
  function Pairs(rs: seq<int>, cs: seq<int>): seq<Position>
  {
    if rs == [] then [] else Pairs(rs[..|rs| - 1], cs) + Row(rs[|rs| - 1], cs)
  }

  /** The cell is on the board and nobody owns it. */
  predicate EmptyAt(size: int, g: Grid, a: Position)
    requires WellFormed(size, g)
  {
    Exists(size, a.row, a.col) && g[a.row][a.col] == Undecided
  }

  /** The cells of `ps` that are empty in `g`, in the order of `ps`. */
  function EmptyOrder(size: int, g: Grid, ps: seq<Position>): seq<Position>
    requires WellFormed(size, g)
  {
    if ps == [] then []
    else EmptyOrder(size, g, ps[..|ps| - 1]) + (if EmptyAt(size, g, ps[|ps| - 1]) then [ps[|ps| - 1]] else [])
  }

  lemma {:induction false} PairsFacts(rs: seq<int>, cs: seq<int>)
    ensures forall a :: a in Pairs(rs, cs) <==> a.row in rs && a.col in cs
    ensures Distinct(rs) && Distinct(cs) ==> Distinct(Pairs(rs, cs))
  {
    if rs != [] {
      var front := rs[..|rs| - 1];
      var r := rs[|rs| - 1];
      PairsFacts(front, cs);
      assert rs == front + [r];
      var row := Row(r, cs);
      forall a ensures a in row <==> a.row == r && a.col in cs {
        if a.row == r && a.col in cs {
          var j :| 0 <= j < |cs| && cs[j] == a.col;
          assert row[j] == a;
        }
      }
      if Distinct(rs) && Distinct(cs) {
        var ps := Pairs(rs, cs);
        var n := |Pairs(front, cs)|;
        forall i, j | 0 <= i < j < |ps| ensures ps[i] != ps[j] {
          if i >= n {
            assert ps[i] == row[i - n] && ps[j] == row[j - n];
          } else if j >= n {
            assert ps[j] in row;
            assert ps[i] in Pairs(front, cs);
          }
        }
      }
    }
  }

  lemma {:induction false} EmptyOrderFacts(size: int, g: Grid, ps: seq<Position>)
    requires WellFormed(size, g)
    ensures forall a :: a in EmptyOrder(size, g, ps) <==> a in ps && EmptyAt(size, g, a)
    ensures Distinct(ps) ==> Distinct(EmptyOrder(size, g, ps))
  {
    if ps != [] {
      var front := ps[..|ps| - 1];
      var last := ps[|ps| - 1];
      EmptyOrderFacts(size, g, front);
      assert ps == front + [last];
      if Distinct(ps) {
        assert Distinct(front);
        assert last !in front;
      }
    }
  }

  /**
   * Given permutations of the rows and of the columns, the order of
   * `forEachEmptyPosition` lists each empty cell of the board exactly
   * once and no occupied cell.
   */
  /** An inner scan starts with the rows visited so far. */
  lemma OrderStart(done: seq<Position>, r: int, cs: seq<int>)
    ensures done + Row(r, cs[..0]) == done
  {
    assert Row(r, cs[..0]) == [];
  }

  /** Visiting one more column index of the current row extends the order by that cell. */
  lemma OrderStep(size: int, g: Grid, done: seq<Position>, r: int, cs: seq<int>, j: int)
    requires WellFormed(size, g) && 0 <= j < |cs|
    ensures EmptyOrder(size, g, done + Row(r, cs[..j + 1]))
         == EmptyOrder(size, g, done + Row(r, cs[..j]))
            + if EmptyAt(size, g, Position(r, cs[j])) then [Position(r, cs[j])] else []
  {
    var before := done + Row(r, cs[..j]);
    assert Row(r, cs[..j + 1]) == Row(r, cs[..j]) + [Position(r, cs[j])];
    assert done + Row(r, cs[..j + 1]) == before + [Position(r, cs[j])];
    assert (before + [Position(r, cs[j])])[..|before|] == before;
  }

  /** A finished row index joins the rows visited so far. */
  lemma OrderRow(rs: seq<int>, cs: seq<int>, i: int)
    requires 0 <= i < |rs|
    ensures Pairs(rs[..i], cs) + Row(rs[i], cs[..|cs|]) == Pairs(rs[..i + 1], cs)
  {
    var front := rs[..i + 1];
    assert front != [] && front[..|front| - 1] == rs[..i] && front[|front| - 1] == rs[i];
    assert Pairs(front, cs) == Pairs(rs[..i], cs) + Row(rs[i], cs);
    assert cs[..|cs|] == cs;
  }

  lemma VisitsEveryEmptyCell(size: int, g: Grid, rs: seq<int>, cs: seq<int>)
    requires WellFormed(size, g) && IsPermutation(rs, size) && IsPermutation(cs, size)
    ensures var order := EmptyOrder(size, g, Pairs(rs, cs));
      && Distinct(order)
      && forall a :: a in order <==> EmptyAt(size, g, a)
  {
    PairsFacts(rs, cs);
    EmptyOrderFacts(size, g, Pairs(rs, cs));
  }

  /** Cells visited in `ps` order, each claimed when it is still empty at that moment, colours alternating from `t`. */
  function LiveFill(size: int, g: Grid, ps: seq<Position>, t: Turn): (r: Grid)
    requires WellFormed(size, g)
    ensures WellFormed(size, r)
    decreases |ps|
  {
    if ps == [] then g
    else if EmptyAt(size, g, ps[0]) then LiveFill(size, Place(g, ps[0].row, ps[0].col, t), ps[1..], Other(t))
    else LiveFill(size, g, ps[1..], t)
  }

  /** The cells of `cells` claimed one after the other, colours alternating from `t`. */
  function PlayOut(size: int, g: Grid, cells: seq<Position>, t: Turn): (r: Grid)
    requires WellFormed(size, g) && forall k :: 0 <= k < |cells| ==> Exists(size, cells[k].row, cells[k].col)
    ensures WellFormed(size, r)
    decreases |cells|
  {
    if cells == [] then g
    else
      var c := cells[0];
      assert Exists(size, c.row, c.col);
      PlayOut(size, Place(g, c.row, c.col, t), cells[1..], Other(t))
  }

  /** A live fill never takes a cell away from its owner. */
  lemma {:induction false} LiveFillKeeps(size: int, g: Grid, ps: seq<Position>, t: Turn, a: Position)
    requires WellFormed(size, g) && Exists(size, a.row, a.col) && g[a.row][a.col] != Undecided
    ensures LiveFill(size, g, ps, t)[a.row][a.col] == g[a.row][a.col]
    decreases |ps|
  {
    if ps != [] {
      if EmptyAt(size, g, ps[0]) {
        LiveFillKeeps(size, Place(g, ps[0].row, ps[0].col, t), ps[1..], Other(t), a);
      } else {
        LiveFillKeeps(size, g, ps[1..], t, a);
      }
    }
  }

  /** A live fill by a real player leaves every visited cell occupied. */
  lemma {:induction false} LiveFillCovers(size: int, g: Grid, ps: seq<Position>, t: Turn, a: Position)
    requires WellFormed(size, g) && Exists(size, a.row, a.col) && a in ps && t != Undecided
    ensures LiveFill(size, g, ps, t)[a.row][a.col] != Undecided
    decreases |ps|
  {
    if ps[0] == a {
      if EmptyAt(size, g, a) {
        LiveFillKeeps(size, Place(g, a.row, a.col, t), ps[1..], Other(t), a);
      } else {
        LiveFillKeeps(size, g, ps[1..], t, a);
      }
    } else {
      assert a in ps[1..];
      if EmptyAt(size, g, ps[0]) {
        LiveFillCovers(size, Place(g, ps[0].row, ps[0].col, t), ps[1..], Other(t), a);
      } else {
        LiveFillCovers(size, g, ps[1..], t, a);
      }
    }
  }

  /**
   * The fill of a simulation: visiting every cell in the order of
   * `forEachEmptyPosition` leaves the board full and keeps the owner of
   * every cell that was already occupied.
   */
  lemma FillCompletes(size: int, g: Grid, rs: seq<int>, cs: seq<int>, t: Turn)
    requires WellFormed(size, g) && IsPermutation(rs, size) && IsPermutation(cs, size) && t != Undecided
    ensures var f := LiveFill(size, g, Pairs(rs, cs), t);
      forall r, c :: 0 <= r < size && 0 <= c < size ==>
        f[r][c] != Undecided && (g[r][c] != Undecided ==> f[r][c] == g[r][c])
  {
    var f := LiveFill(size, g, Pairs(rs, cs), t);
    PairsFacts(rs, cs);
    forall r, c | 0 <= r < size && 0 <= c < size
      ensures f[r][c] != Undecided && (g[r][c] != Undecided ==> f[r][c] == g[r][c])
    {
      assert Position(r, c) in Pairs(rs, cs);
      LiveFillCovers(size, g, Pairs(rs, cs), t, Position(r, c));
      if g[r][c] != Undecided {
        LiveFillKeeps(size, g, Pairs(rs, cs), t, Position(r, c));
      }
    }
  }

  /** Unfolding `EmptyOrder` at the front. */
  lemma {:induction false} EmptyOrderCons(size: int, g: Grid, x: Position, rest: seq<Position>)
    requires WellFormed(size, g)
    ensures EmptyOrder(size, g, [x] + rest)
         == (if EmptyAt(size, g, x) then [x] else []) + EmptyOrder(size, g, rest)
    decreases |rest|
  {
    if rest != [] {
      var front := rest[..|rest| - 1];
      assert ([x] + rest)[..|rest|] == [x] + front;
      EmptyOrderCons(size, g, x, front);
    }
  }

  /** Claiming a cell outside `rest` does not change which cells of `rest` are empty. */
  lemma {:induction false} EmptyOrderPlace(size: int, g: Grid, x: Position, t: Turn, rest: seq<Position>)
    requires WellFormed(size, g) && Exists(size, x.row, x.col) && x !in rest
    ensures EmptyOrder(size, Place(g, x.row, x.col, t), rest) == EmptyOrder(size, g, rest)
    decreases |rest|
  {
    if rest != [] {
      EmptyOrderPlace(size, g, x, t, rest[..|rest| - 1]);
    }
  }

  /**
   * Visiting the cells while claiming them is the same as taking the list
   * of empty cells first and then claiming those in order: a cell claimed
   * during the walk is never visited again.
   */
  lemma {:induction false} LiveFillIsPlayOut(size: int, g: Grid, ps: seq<Position>, t: Turn)
    requires WellFormed(size, g) && Distinct(ps)
    ensures var cells := EmptyOrder(size, g, ps);
      && (forall k :: 0 <= k < |cells| ==> EmptyAt(size, g, cells[k]))
      && PlayOut(size, g, cells, t) == LiveFill(size, g, ps, t)
    decreases |ps|
  {
    EmptyOrderFacts(size, g, ps);
    var cells := EmptyOrder(size, g, ps);
    assert forall k :: 0 <= k < |cells| ==> cells[k] in cells;
    if ps != [] {
      var x, rest := ps[0], ps[1..];
      assert ps == [x] + rest;
      assert Distinct(rest);
      EmptyOrderCons(size, g, x, rest);
      if EmptyAt(size, g, x) {
        var g' := Place(g, x.row, x.col, t);
        assert x !in rest;
        EmptyOrderPlace(size, g, x, t, rest);
        LiveFillIsPlayOut(size, g', rest, Other(t));
        assert cells[1..] == EmptyOrder(size, g', rest);
      } else {
        LiveFillIsPlayOut(size, g, rest, t);
        assert cells == EmptyOrder(size, g, rest);
      }
    }
  }

  /** The link pairs of one `connect` call between two cells, as node pairs. */
  lemma StubNodes(size: int, g: Grid, p: Turn, at: Position)
    requires WellFormed(size, g)
    ensures Nodes(size, NeighbourLinks(size, g, p, at))
         == Nodes(size, Stub(size, g, p, at, -1, 0)) + Nodes(size, Stub(size, g, p, at, -1, 1))
          + Nodes(size, Stub(size, g, p, at, 0, -1)) + Nodes(size, Stub(size, g, p, at, 0, 1))
          + Nodes(size, Stub(size, g, p, at, 1, -1)) + Nodes(size, Stub(size, g, p, at, 1, 0))
  {
    NeighbourStubs(size, g, p, at);
    var s1, s2, s3 := Stub(size, g, p, at, -1, 0), Stub(size, g, p, at, -1, 1), Stub(size, g, p, at, 0, -1);
    var s4, s5, s6 := Stub(size, g, p, at, 0, 1), Stub(size, g, p, at, 1, -1), Stub(size, g, p, at, 1, 0);
    NodesUnion(size, s1 + s2 + s3 + s4 + s5, s6);
    NodesUnion(size, s1 + s2 + s3 + s4, s5);
    NodesUnion(size, s1 + s2 + s3, s4);
    NodesUnion(size, s1 + s2, s3);
    NodesUnion(size, s1, s2);
  }

  /** The grid `src` copied up to, but not including, cell (row, col) in row-major order; the rest empty. */
  ghost function Copied(size: int, src: Grid, row: int, col: int): (g: Grid)
    requires WellFormed(size, src)
    ensures WellFormed(size, g)
  {
    seq(size, r requires 0 <= r < size =>
      seq(size, c requires 0 <= c < size =>
        if Before(Position(r, c), Position(row, col)) then src[r][c] else Undecided))
  }

  lemma CopiedStep(size: int, src: Grid, row: int, col: int)
    requires WellFormed(size, src) && Exists(size, row, col)
    ensures Copied(size, src, row, col)[row][col] == Undecided
    ensures Copied(size, src, row, col + 1) == Place(Copied(size, src, row, col), row, col, src[row][col])
  {
    var a := Copied(size, src, row, col + 1);
    var b := Place(Copied(size, src, row, col), row, col, src[row][col]);
    forall r | 0 <= r < size ensures a[r] == b[r] {
    }
  }

  lemma CopiedRows(size: int, src: Grid, row: int)
    requires WellFormed(size, src) && 0 <= row
    ensures Copied(size, src, row, size) == Copied(size, src, row + 1, 0)
    ensures Copied(size, src, 0, 0) == EmptyGrid(size)
    ensures Copied(size, src, size, 0) == src
  {
    var a := Copied(size, src, row, size);
    var b := Copied(size, src, row + 1, 0);
    forall r | 0 <= r < size ensures a[r] == b[r] {
    }
    var e := Copied(size, src, 0, 0);
    forall r | 0 <= r < size ensures e[r] == EmptyGrid(size)[r] {
    }
    var f := Copied(size, src, size, 0);
    forall r | 0 <= r < size ensures f[r] == src[r] {
    }
  }

  lemma NoNodes(size: int)
    ensures Nodes(size, {}) == {}
  {
  }

  /** No chain links start before the first cell. */
  lemma ChainsStart(size: int)
    ensures forall row :: RowChain(size, row, 0) == {}
    ensures forall col :: ColChain(size, col, 0) == {}
    ensures Nodes(size, {}) == {}
  {
  }

  lemma RowChainNodes(size: int, row: int, col: int)
    requires 0 <= row < size && 0 <= col
    ensures Nodes(size, RowChain(size, row, col + 1))
         == Nodes(size, RowChain(size, row, col))
          + Nodes(size, if Exists(size, row, col + 1) then {(Position(row, col), Position(row, col + 1)), (Position(row, col + 1), Position(row, col))} else {})
  {
    NodesUnion(size, RowChain(size, row, col),
               if Exists(size, row, col + 1) then {(Position(row, col), Position(row, col + 1)), (Position(row, col + 1), Position(row, col))} else {});
  }

  lemma ColChainNodes(size: int, col: int, row: int)
    requires 0 <= col < size && 0 <= row
    ensures Nodes(size, ColChain(size, col, row + 1))
         == Nodes(size, ColChain(size, col, row))
          + Nodes(size, if Exists(size, row + 1, col) then {(Position(row, col), Position(row + 1, col)), (Position(row + 1, col), Position(row, col))} else {})
  {
    NodesUnion(size, ColChain(size, col, row),
               if Exists(size, row + 1, col) then {(Position(row, col), Position(row + 1, col)), (Position(row + 1, col), Position(row, col))} else {});
  }

  lemma Regroup<T>(o: set<T>, a: set<T>, b: set<T>, p: set<T>, q: set<T>)
    ensures o + a + b + p + q == o + (a + p) + (b + q)
    ensures o + {} + {} == o
    ensures o + a + b == o + (a + b)
  {
  }

  /** One step of the loop over the columns of `connectBorders`: Red's two chains grow by one pair each. */
  lemma RowsStep(size: int, col: int, o: set<(int, int)>, before: set<(int, int)>,
                 top: set<(int, int)>, bottom: set<(int, int)>, after: set<(int, int)>)
    requires 1 <= size && 0 <= col
    requires before == o + Nodes(size, RowChain(size, 0, col)) + Nodes(size, RowChain(size, size - 1, col))
    requires top == Nodes(size, if Exists(size, Position(0, col + 1).row, Position(0, col + 1).col)
                                then {(Position(0, col), Position(0, col + 1)), (Position(0, col + 1), Position(0, col))} else {})
    requires bottom == Nodes(size, if Exists(size, Position(size - 1, col + 1).row, Position(size - 1, col + 1).col)
                                   then {(Position(size - 1, col), Position(size - 1, col + 1)), (Position(size - 1, col + 1), Position(size - 1, col))} else {})
    requires after == before + top + bottom
    ensures after == o + Nodes(size, RowChain(size, 0, col + 1)) + Nodes(size, RowChain(size, size - 1, col + 1))
  {
    RowChainNodes(size, 0, col);
    RowChainNodes(size, size - 1, col);
    Regroup(o, Nodes(size, RowChain(size, 0, col)), Nodes(size, RowChain(size, size - 1, col)), top, bottom);
  }

  /** One step of the loop over the rows of `connectBorders`: Blue's two chains grow by one pair each. */
  lemma ColsStep(size: int, row: int, o: set<(int, int)>, before: set<(int, int)>,
                 left: set<(int, int)>, right: set<(int, int)>, after: set<(int, int)>)
    requires 1 <= size && 0 <= row
    requires before == o + Nodes(size, ColChain(size, 0, row)) + Nodes(size, ColChain(size, size - 1, row))
    requires left == Nodes(size, if Exists(size, Position(row + 1, 0).row, Position(row + 1, 0).col)
                                 then {(Position(row, 0), Position(row + 1, 0)), (Position(row + 1, 0), Position(row, 0))} else {})
    requires right == Nodes(size, if Exists(size, Position(row + 1, size - 1).row, Position(row + 1, size - 1).col)
                                  then {(Position(row, size - 1), Position(row + 1, size - 1)), (Position(row + 1, size - 1), Position(row, size - 1))} else {})
    requires after == before + left + right
    ensures after == o + Nodes(size, ColChain(size, 0, row + 1)) + Nodes(size, ColChain(size, size - 1, row + 1))
  {
    ColChainNodes(size, 0, row);
    ColChainNodes(size, size - 1, row);
    Regroup(o, Nodes(size, ColChain(size, 0, row)), Nodes(size, ColChain(size, size - 1, row)), left, right);
  }

  /** After the last column (row), the two chains are the player's whole border links. */
  lemma BordersDone(size: int, p: Turn, o: set<(int, int)>, e: set<(int, int)>)
    requires p == Red ==> e == o + Nodes(size, RowChain(size, 0, size)) + Nodes(size, RowChain(size, size - 1, size))
    requires p == Blue ==> e == o + Nodes(size, ColChain(size, 0, size)) + Nodes(size, ColChain(size, size - 1, size))
    requires p != Undecided
    ensures e == o + Nodes(size, BorderLinks(size, p))
  {
    if p == Red {
      NodesUnion(size, RowChain(size, 0, size), RowChain(size, size - 1, size));
      Regroup(o, Nodes(size, RowChain(size, 0, size)), Nodes(size, RowChain(size, size - 1, size)), {}, {});
    } else {
      NodesUnion(size, ColChain(size, 0, size), ColChain(size, size - 1, size));
      Regroup(o, Nodes(size, ColChain(size, 0, size)), Nodes(size, ColChain(size, size - 1, size)), {}, {});
    }
  }

  // ---------------------------------------------------------------------
  // Wiring a player's graph.
  // ---------------------------------------------------------------------

  /** `g` has one node per cell of an `n` x `n` board. */
  ghost predicate Fits(n: int, g: Graph)
    reads g, g.limits
  {
    g.Valid() && g.nodes == n * n
  }

  /** Adds both directions between two cells to `g`. */
  method Wire(n: int, g: Graph, a: Position, b: Position)
    requires Fits(n, g) && Exists(n, a.row, a.col) && Exists(n, b.row, b.col)
    modifies g, g.limits
    ensures Fits(n, g)
    ensures g.EdgeSet() == old(g.EdgeSet()) + Nodes(n, {(a, b), (b, a)})
  {
    CellRange(n, a.row, a.col);
    CellRange(n, b.row, b.col);
    var _ := g.Connect(Cell(n, a.row, a.col), Cell(n, b.row, b.col), true);
    NodesPair(n, a, b);
  }

  /** `if (exists(b)) g.connect(cell(a), cell(b))`; `added` is what that adds. */
  method WireIfExists(n: int, g: Graph, a: Position, b: Position) returns (ghost added: set<(int, int)>)
    requires Fits(n, g) && Exists(n, a.row, a.col)
    modifies g, g.limits
    ensures Fits(n, g)
    ensures added == Nodes(n, if Exists(n, b.row, b.col) then {(a, b), (b, a)} else {})
    ensures g.EdgeSet() == old(g.EdgeSet()) + added
  {
    if Exists(n, b.row, b.col) {
      Wire(n, g, a, b);
    } else {
      NoNodes(n);
    }
    added := Nodes(n, if Exists(n, b.row, b.col) then {(a, b), (b, a)} else {});
  }

  /** The first loop of `connectBorders`: Red's chains along rows 0 and size-1. */
  method ConnectRows(n: int, g: Graph)
    requires Fits(n, g) && 1 <= n
    modifies g, g.limits
    ensures Fits(n, g)
    ensures g.EdgeSet() == old(g.EdgeSet()) + Nodes(n, BorderLinks(n, Red))
  {
    ghost var e0 := g.EdgeSet();
    ChainsStart(n);
    Regroup(e0, {}, {}, {}, {});
    for col := 0 to n
      invariant Fits(n, g)
      invariant g.EdgeSet() == e0 + Nodes(n, RowChain(n, 0, col)) + Nodes(n, RowChain(n, n - 1, col))
    {
      ConnectRowsAt(n, g, col, e0);
    }
    BordersDone(n, Red, e0, g.EdgeSet());
  }

  /** One column of the first loop: each of Red's chains gains the pair from `col` to `col + 1`, if that cell exists. */
  method ConnectRowsAt(n: int, g: Graph, col: int, ghost e0: set<(int, int)>)
    requires Fits(n, g) && 0 <= col < n
    requires g.EdgeSet() == e0 + Nodes(n, RowChain(n, 0, col)) + Nodes(n, RowChain(n, n - 1, col))
    modifies g, g.limits
    ensures Fits(n, g)
    ensures g.EdgeSet() == e0 + Nodes(n, RowChain(n, 0, col + 1)) + Nodes(n, RowChain(n, n - 1, col + 1))
  {
    ghost var before := g.EdgeSet();
    var top := WireIfExists(n, g, Position(0, col), Position(0, col + 1));
    var bottom := WireIfExists(n, g, Position(n - 1, col), Position(n - 1, col + 1));
    RowsStep(n, col, e0, before, top, bottom, g.EdgeSet());
  }

  /** The second loop of `connectBorders`: Blue's chains along columns 0 and size-1. */
  method ConnectColumns(n: int, g: Graph)
    requires Fits(n, g) && 1 <= n
    modifies g, g.limits
    ensures Fits(n, g)
    ensures g.EdgeSet() == old(g.EdgeSet()) + Nodes(n, BorderLinks(n, Blue))
  {
    ghost var e0 := g.EdgeSet();
    ChainsStart(n);
    Regroup(e0, {}, {}, {}, {});
    for row := 0 to n
      invariant Fits(n, g)
      invariant g.EdgeSet() == e0 + Nodes(n, ColChain(n, 0, row)) + Nodes(n, ColChain(n, n - 1, row))
    {
      ConnectColumnsAt(n, g, row, e0);
    }
    BordersDone(n, Blue, e0, g.EdgeSet());
  }

  /** One row of the second loop: each of Blue's chains gains the pair from `row` to `row + 1`, if that cell exists. */
  method ConnectColumnsAt(n: int, g: Graph, row: int, ghost e0: set<(int, int)>)
    requires Fits(n, g) && 0 <= row < n
    requires g.EdgeSet() == e0 + Nodes(n, ColChain(n, 0, row)) + Nodes(n, ColChain(n, n - 1, row))
    modifies g, g.limits
    ensures Fits(n, g)
    ensures g.EdgeSet() == e0 + Nodes(n, ColChain(n, 0, row + 1)) + Nodes(n, ColChain(n, n - 1, row + 1))
  {
    ghost var before := g.EdgeSet();
    var left := WireIfExists(n, g, Position(row, 0), Position(row + 1, 0));
    var right := WireIfExists(n, g, Position(row, n - 1), Position(row + 1, n - 1));
    ColsStep(n, row, e0, before, left, right, g.EdgeSet());
  }

  /**
   * Two fresh graphs with one node per cell, wired as `connectBorders`
   * wires them on an empty board: Red's along the rows, then Blue's along
   * the columns.
   */
  method BorderGraphs(n: int) returns (blue: Graph, red: Graph)
    requires 1 <= n && n * n < INT_MAX
    ensures fresh(blue) && fresh(blue.limits) && fresh(red) && fresh(red.limits)
    ensures blue != red && blue.limits != red.limits
    ensures Fits(n, blue) && Fits(n, red)
    ensures blue.EdgeSet() == PlayerEdges(n, EmptyGrid(n), Blue)
    ensures red.EdgeSet() == PlayerEdges(n, EmptyGrid(n), Red)
  {
    blue := new Graph(n * n, n * n * 6);
    red := new Graph(n * n, n * n * 6);
    ConnectRows(n, red);
    ConnectColumns(n, blue);
    EmptyEdges(n, Blue);
    EmptyEdges(n, Red);
  }

  /** One guarded connect of `connectBlue`/`connectRed`: the neighbour at offset (dr, dc), if it exists and `p` owns it. */
  method ConnectIfOwned(n: int, g: Graph, grid: Grid, p: Turn, at: Position, dr: int, dc: int)
    returns (ghost added: set<(int, int)>)
    requires Fits(n, g) && WellFormed(n, grid) && Exists(n, at.row, at.col)
    modifies g, g.limits
    ensures Fits(n, g)
    ensures added == Nodes(n, Stub(n, grid, p, at, dr, dc))
    ensures g.EdgeSet() == old(g.EdgeSet()) + added
  {
    var b := Position(at.row + dr, at.col + dc);
    if Exists(n, b.row, b.col) && grid[b.row][b.col] == p {
      Wire(n, g, at, b);
    } else {
      NoNodes(n);
    }
    added := Nodes(n, Stub(n, grid, p, at, dr, dc));
  }

  /**
   * `connectBlue` (p == Blue, g the blue graph) and `connectRed` (p == Red,
   * g the red graph): links the cell `at` with each of its six neighbours
   * that `p` owns in `grid`, in both directions.
   */
  method ConnectStone(n: int, g: Graph, grid: Grid, p: Turn, at: Position)
    requires Fits(n, g) && WellFormed(n, grid) && Exists(n, at.row, at.col)
    modifies g, g.limits
    ensures Fits(n, g)
    ensures g.EdgeSet() == old(g.EdgeSet()) + Nodes(n, NeighbourLinks(n, grid, p, at))
  {
    ghost var e0 := g.EdgeSet();
    var upper := ConnectUpper(n, g, grid, p, at);
    var lower := ConnectLower(n, g, grid, p, at);
    StubNodes(n, grid, p, at);
  }

  /** The first three connects of `connectBlue`/`connectRed`: offsets (-1, 0), (-1, +1), (0, -1). */
  method ConnectUpper(n: int, g: Graph, grid: Grid, p: Turn, at: Position) returns (ghost added: set<(int, int)>)
    requires Fits(n, g) && WellFormed(n, grid) && Exists(n, at.row, at.col)
    modifies g, g.limits
    ensures Fits(n, g)
    ensures added == Nodes(n, Stub(n, grid, p, at, -1, 0)) + Nodes(n, Stub(n, grid, p, at, -1, 1))
                   + Nodes(n, Stub(n, grid, p, at, 0, -1))
    ensures g.EdgeSet() == old(g.EdgeSet()) + added
  {
    var s1 := ConnectIfOwned(n, g, grid, p, at, -1, 0);
    var s2 := ConnectIfOwned(n, g, grid, p, at, -1, 1);
    var s3 := ConnectIfOwned(n, g, grid, p, at, 0, -1);
    added := s1 + s2 + s3;
  }

  /** The last three connects of `connectBlue`/`connectRed`: offsets (0, +1), (+1, -1), (+1, 0). */
  method ConnectLower(n: int, g: Graph, grid: Grid, p: Turn, at: Position) returns (ghost added: set<(int, int)>)
    requires Fits(n, g) && WellFormed(n, grid) && Exists(n, at.row, at.col)
    modifies g, g.limits
    ensures Fits(n, g)
    ensures added == Nodes(n, Stub(n, grid, p, at, 0, 1)) + Nodes(n, Stub(n, grid, p, at, 1, -1))
                   + Nodes(n, Stub(n, grid, p, at, 1, 0))
    ensures g.EdgeSet() == old(g.EdgeSet()) + added
  {
    var s4 := ConnectIfOwned(n, g, grid, p, at, 0, 1);
    var s5 := ConnectIfOwned(n, g, grid, p, at, 1, -1);
    var s6 := ConnectIfOwned(n, g, grid, p, at, 1, 0);
    added := s4 + s5 + s6;
  }

  /**
   * `positions[at] = t` followed by `connectBlue` or `connectRed` for the
   * owner: the grid gains the cell and the owner's graph the links to its
   * neighbours, so each graph again holds exactly its player's edges.
   */
  method ClaimCell(n: int, blue: Graph, red: Graph, grid: Grid, at: Position, t: Turn) returns (next: Grid)
    requires Fits(n, blue) && Fits(n, red) && blue != red && blue.limits != red.limits
    requires WellFormed(n, grid) && Exists(n, at.row, at.col) && grid[at.row][at.col] == Undecided
    requires blue.EdgeSet() == PlayerEdges(n, grid, Blue) && red.EdgeSet() == PlayerEdges(n, grid, Red)
    modifies blue, blue.limits, red, red.limits
    ensures next == Place(grid, at.row, at.col, t) && WellFormed(n, next)
    ensures Fits(n, blue) && Fits(n, red)
    ensures blue.EdgeSet() == PlayerEdges(n, next, Blue) && red.EdgeSet() == PlayerEdges(n, next, Red)
  {
    next := Place(grid, at.row, at.col, t);
    if t == Blue {
      ClaimEdges(n, grid, at, Blue);
      ConnectClaimed(n, blue, grid, at, Blue);
    } else if t == Red {
      ClaimEdges(n, grid, at, Red);
      ConnectClaimed(n, red, grid, at, Red);
    } else {
      assert grid[at.row][at.col := t] == grid[at.row];
      assert next == grid;
    }
  }

  /** The wiring half of a claim: `p`'s graph gains the links of the cell `p` has just claimed. */
  method ConnectClaimed(n: int, g: Graph, grid: Grid, at: Position, p: Turn)
    requires Fits(n, g) && WellFormed(n, grid) && Exists(n, at.row, at.col) && grid[at.row][at.col] == Undecided
    requires p != Undecided && g.EdgeSet() == PlayerEdges(n, grid, p)
    modifies g, g.limits
    ensures Fits(n, g) && g.EdgeSet() == PlayerEdges(n, Place(grid, at.row, at.col, p), p)
  {
    ClaimEdges(n, grid, at, p);
    ConnectStone(n, g, Place(grid, at.row, at.col, p), p, at);
  }

  /**
   * The copy loop of the copy constructor and of `operator=`: cell after
   * cell in row-major order, copy the owner and wire it, into graphs that
   * start with the border chains alone.
   */
  method CopyStones(n: int, blue: Graph, red: Graph, src: Grid)
    requires Fits(n, blue) && Fits(n, red) && blue != red && blue.limits != red.limits
    requires 0 <= n && WellFormed(n, src)
    requires blue.EdgeSet() == PlayerEdges(n, EmptyGrid(n), Blue) && red.EdgeSet() == PlayerEdges(n, EmptyGrid(n), Red)
    modifies blue, blue.limits, red, red.limits
    ensures Fits(n, blue) && Fits(n, red)
    ensures blue.EdgeSet() == PlayerEdges(n, src, Blue) && red.EdgeSet() == PlayerEdges(n, src, Red)
  {
    var grid := EmptyGrid(n);
    CopiedRows(n, src, 0);
    for row := 0 to n
      invariant grid == Copied(n, src, row, 0) && WellFormed(n, grid)
      invariant Fits(n, blue) && Fits(n, red)
      invariant blue.EdgeSet() == PlayerEdges(n, grid, Blue) && red.EdgeSet() == PlayerEdges(n, grid, Red)
    {
      grid := CopyRow(n, blue, red, src, row, grid);
      CopiedRows(n, src, row);
    }
  }

  /** One row of the copy loop: the cells of `row` are copied and wired left to right. */
  method CopyRow(n: int, blue: Graph, red: Graph, src: Grid, row: int, grid: Grid) returns (next: Grid)
    requires Fits(n, blue) && Fits(n, red) && blue != red && blue.limits != red.limits
    requires 0 <= row < n && WellFormed(n, src) && grid == Copied(n, src, row, 0)
    requires blue.EdgeSet() == PlayerEdges(n, grid, Blue) && red.EdgeSet() == PlayerEdges(n, grid, Red)
    modifies blue, blue.limits, red, red.limits
    ensures next == Copied(n, src, row, n) && Fits(n, blue) && Fits(n, red)
    ensures blue.EdgeSet() == PlayerEdges(n, next, Blue) && red.EdgeSet() == PlayerEdges(n, next, Red)
  {
    next := grid;
    for col := 0 to n
      invariant next == Copied(n, src, row, col) && WellFormed(n, next)
      invariant Fits(n, blue) && Fits(n, red)
      invariant blue.EdgeSet() == PlayerEdges(n, next, Blue) && red.EdgeSet() == PlayerEdges(n, next, Red)
    {
      next := CopyCell(n, blue, red, src, row, col, next);
    }
  }

  /** One step of the copy loop: cell (row, col) takes its owner from `src` and is wired. */
  method CopyCell(n: int, blue: Graph, red: Graph, src: Grid, row: int, col: int, grid: Grid) returns (next: Grid)
    requires Fits(n, blue) && Fits(n, red) && blue != red && blue.limits != red.limits
    requires Exists(n, row, col) && WellFormed(n, src) && grid == Copied(n, src, row, col)
    requires blue.EdgeSet() == PlayerEdges(n, grid, Blue) && red.EdgeSet() == PlayerEdges(n, grid, Red)
    modifies blue, blue.limits, red, red.limits
    ensures next == Copied(n, src, row, col + 1) && Fits(n, blue) && Fits(n, red)
    ensures blue.EdgeSet() == PlayerEdges(n, next, Blue) && red.EdgeSet() == PlayerEdges(n, next, Red)
  {
    CopiedStep(n, src, row, col);
    next := ClaimCell(n, blue, red, grid, Position(row, col), src[row][col]);
  }

  /** The graphs of the copy constructor and of `operator=`: border chains, then every stone of `src` wired. */
  method RebuildGraphs(n: int, src: Grid) returns (blue: Graph, red: Graph)
    requires 1 <= n && n * n < INT_MAX && WellFormed(n, src)
    ensures fresh(blue) && fresh(blue.limits) && fresh(red) && fresh(red.limits)
    ensures blue != red && blue.limits != red.limits && Fits(n, blue) && Fits(n, red)
    ensures blue.EdgeSet() == PlayerEdges(n, src, Blue) && red.EdgeSet() == PlayerEdges(n, src, Red)
  {
    blue, red := BorderGraphs(n);
    CopyStones(n, blue, red, src);
  }

  /** The query of `checkGame`: a fresh search over `g` between the nodes of cells (0, 0) and (n-1, n-1). */
  method JoinsCorners(n: int, g: Graph) returns (joined: bool)
    requires Fits(n, g) && 1 <= n && n * n < INT_MAX
    ensures joined <==> Joined(g.EdgeSet(), Cell(n, 0, 0), Cell(n, n - 1, n - 1))
  {
    CellRange(n, 0, 0);
    CellRange(n, n - 1, n - 1);
    var search := new Dijkstra(g);
    var r := search.NodesAreConnected(Cell(n, 0, 0), Cell(n, n - 1, n - 1));
    ReachableEdges(g.Adj, Cell(n, 0, 0), Cell(n, n - 1, n - 1));
    joined := r == Ok(true);
  }

  /**
   * The searches of `checkGame`: Blue wins if its graph joins the corners,
   * then Red if its graph does; either ends the game.
   */
  method Judge(n: int, blue: Graph, red: Graph, ghost g: Grid, winner: Turn, turn: Turn) returns (w: Turn, t: Turn)
    requires 1 <= n && n * n < INT_MAX && WellFormed(n, g)
    requires Fits(n, blue) && blue.EdgeSet() == PlayerEdges(n, g, Blue)
    requires Fits(n, red) && red.EdgeSet() == PlayerEdges(n, g, Red)
    ensures Fits(n, blue) && blue.EdgeSet() == PlayerEdges(n, g, Blue)
    ensures Fits(n, red) && red.EdgeSet() == PlayerEdges(n, g, Red)
    ensures w == Outcome(n, g, winner) && t == if Decided(n, g) then Undecided else turn
  {
    w, t := winner, turn;
    var b := JoinsCorners(n, blue);
    if b {
      w, t := Blue, Undecided;
    }
    var r := JoinsCorners(n, red);
    if r {
      w, t := Red, Undecided;
    }
  }

  /** With at most one stone on the board a player's edges are the border chains alone. */
  lemma LoneEdges(size: int, g: Grid, p: Turn, a: Position)
    requires WellFormed(size, g) && OnlyAt(size, g, a) && p != Undecided
    ensures PlayerEdges(size, g, p) == Nodes(size, BorderLinks(size, p))
  {
    LoneStone(size, g, p, a);
    assert Links(size, g, p) == BorderLinks(size, p);
  }

  // ---------------------------------------------------------------------
  // The row-major scan of `forEachPiece`.
  // ---------------------------------------------------------------------

  /**
   * `ps` lists, in row-major order and with their owners, exactly the
   * occupied cells that come before `at`.
   */
  ghost predicate PiecesBefore(size: int, g: Grid, ps: seq<Piece>, at: Position)
    requires WellFormed(size, g)
  {
    && (forall k :: 0 <= k < |ps| ==>
          && Exists(size, ps[k].row, ps[k].col) && Before(Spot(ps[k]), at)
          && ps[k].owner == g[ps[k].row][ps[k].col] && ps[k].owner != Undecided)
    && (forall i, j :: 0 <= i < j < |ps| ==> Before(Spot(ps[i]), Spot(ps[j])))
    && (forall r, c :: Exists(size, r, c) && g[r][c] != Undecided && Before(Position(r, c), at) ==>
          Position(r, c) in Spots(ps))
  }

  /** Scanning cell (row, col) appends it when it is occupied. */
  lemma PiecesNext(size: int, g: Grid, ps: seq<Piece>, row: int, col: int)
    requires WellFormed(size, g) && Exists(size, row, col) && PiecesBefore(size, g, ps, Position(row, col))
    ensures PiecesBefore(size, g, ps + (if g[row][col] != Undecided then [Piece(row, col, g[row][col])] else []),
                         Position(row, col + 1))
  {
    var ps' := ps + (if g[row][col] != Undecided then [Piece(row, col, g[row][col])] else []);
    forall r, c | Exists(size, r, c) && g[r][c] != Undecided && Before(Position(r, c), Position(row, col + 1))
      ensures Position(r, c) in Spots(ps')
    {
      if r == row && c == col {
        assert Spot(ps'[|ps|]) == Position(r, c);
      } else {
        var k :| 0 <= k < |ps| && Spot(ps[k]) == Position(r, c);
        assert Spot(ps'[k]) == Position(r, c);
      }
    }
  }

  /** The end of a row is the start of the next one. */
  lemma PiecesRow(size: int, g: Grid, ps: seq<Piece>, row: int)
    requires WellFormed(size, g) && PiecesBefore(size, g, ps, Position(row, size))
    ensures PiecesBefore(size, g, ps, Position(row + 1, 0))
  {
  }

  /** After the last row the scan has listed every occupied cell. */
  lemma PiecesAll(size: int, g: Grid, ps: seq<Piece>)
    requires WellFormed(size, g) && PiecesBefore(size, g, ps, Position(size, 0))
    ensures Spots(ps) == Stones(size, g)
  {
    forall a | a in Spots(ps) ensures a in Stones(size, g) {
      var k :| 0 <= k < |ps| && Spot(ps[k]) == a;
    }
  }

  // ---------------------------------------------------------------------
  // The board.
  // ---------------------------------------------------------------------

  class Board {
    var size: int
    var humanPlayers: HumanPlayers
    /** Who moves next; `Undecided` once the game is over. */
    var turn: Turn
    var winner: Turn
    var movements: int
    /** The first cell claimed, or (-1, -1) before any move. */
    var opening: Position
    var blueGraph: Graph
    var redGraph: Graph
    var positions: Grid

    /** Sizes agree: the grid is `size` x `size` and each graph has one node per cell. */
    ghost predicate Shaped()
      reads this`size, this`positions, this`blueGraph, this`redGraph
      reads blueGraph, blueGraph.limits, redGraph, redGraph.limits
    {
      && 1 <= size && size * size < INT_MAX
      && WellFormed(size, positions)
      && blueGraph != redGraph && blueGraph.limits != redGraph.limits
      && Fits(size, blueGraph) && Fits(size, redGraph)
    }

    /** Each player's graph holds exactly that player's border chains and stone links. */
    ghost predicate Wired()
      reads this`size, this`positions, this`blueGraph, this`redGraph
      reads blueGraph, blueGraph.limits, redGraph, redGraph.limits
    {
      && Shaped()
      && blueGraph.EdgeSet() == PlayerEdges(size, positions, Blue)
      && redGraph.EdgeSet() == PlayerEdges(size, positions, Red)
    }

    /** The move bookkeeping of the current fields. */
    ghost predicate Bookkept()
      reads this`size, this`positions, this`turn, this`winner, this`movements, this`opening
      requires WellFormed(size, positions)
    {
      Bookkeeping(size, positions, turn, winner, movements, opening)
    }

    /** A game in a consistent state, whoever plays it: graphs wired for the owners and the moves kept track of. */
    ghost predicate Consistent()
      reads this, blueGraph, blueGraph.limits, redGraph, redGraph.limits
    {
      && Wired()
      && Bookkept()
    }

    /** A consistent game played by two humans, as every copy and every simulation is. */
    ghost predicate Valid()
      reads this, blueGraph, blueGraph.limits, redGraph, redGraph.limits
    {
      && humanPlayers == HumanPlayers(true, true)
      && Wired()
      && Bookkept()
    }

    /** A new board: Blue to move, nobody has won, no moves, no opening, both pairs of borders wired. */
    constructor (size: int, humanPlayers: HumanPlayers)
      requires 1 <= size && size * size < INT_MAX
      requires humanPlayers == HumanPlayers(true, true)
      ensures Valid() && fresh(blueGraph) && fresh(blueGraph.limits) && fresh(redGraph) && fresh(redGraph.limits)
      ensures this.size == size && this.humanPlayers == humanPlayers
      ensures turn == Blue && winner == Undecided && movements == 0 && opening == Position(-1, -1)
      ensures positions == EmptyGrid(size)
      ensures blueGraph.EdgeSet() == Nodes(size, BorderLinks(size, Blue))
      ensures redGraph.EdgeSet() == Nodes(size, BorderLinks(size, Red))
    {
      this.size := size;
      this.humanPlayers := humanPlayers;
      turn := Blue;
      winner := Undecided;
      movements := 0;
      opening := Position(-1, -1);
      var blue, red := BorderGraphs(size);
      blueGraph, redGraph := blue, red;
      positions := EmptyGrid(size);
      new;
      EmptyBoard(size, Blue);
      EmptyEdges(size, Blue);
      EmptyEdges(size, Red);
    }

    /** The copy constructor: the same game with all-human players and graphs rebuilt from the owners. */
    constructor Copy(other: Board)
      requires other.Consistent()
      ensures Valid() && fresh(blueGraph) && fresh(blueGraph.limits) && fresh(redGraph) && fresh(redGraph.limits)
      ensures size == other.size && positions == other.positions
      ensures turn == other.turn && winner == other.winner
      ensures movements == other.movements && opening == other.opening
      ensures blueGraph.EdgeSet() == other.blueGraph.EdgeSet()
      ensures redGraph.EdgeSet() == other.redGraph.EdgeSet()
    {
      var n, src := other.size, other.positions;
      var blue, red := RebuildGraphs(n, src);
      blueGraph, redGraph := blue, red;
      new;
      Record(n, src, other.turn, other.winner, other.movements, other.opening);
    }

    /**
     * `operator=`: take over the other board's game, with all-human players
     * and fresh graphs rebuilt from the owners; assigning a board to itself
     * changes nothing.
     */
    method Assign(other: Board)
      requires other.Consistent()
      modifies this
      ensures Consistent()
      ensures humanPlayers == if this == other then old(humanPlayers) else HumanPlayers(true, true)
      ensures size == old(other.size) && positions == old(other.positions)
      ensures turn == old(other.turn) && winner == old(other.winner)
      ensures movements == old(other.movements) && opening == old(other.opening)
      ensures blueGraph.EdgeSet() == old(other.blueGraph.EdgeSet())
      ensures redGraph.EdgeSet() == old(other.redGraph.EdgeSet())
      ensures this == other || (fresh(blueGraph) && fresh(blueGraph.limits) && fresh(redGraph) && fresh(redGraph.limits))
    {
      if this == other {
        return;
      }
      var n, src := other.size, other.positions;
      var blue, red := RebuildGraphs(n, src);
      Record(n, src, other.turn, other.winner, other.movements, other.opening);
      Attach(blue, red);
    }

    /** Takes over the values of a game, with all-human players. */
    method Record(n: int, src: Grid, t: Turn, w: Turn, m: int, o: Position)
      modifies this`size, this`positions, this`humanPlayers, this`turn, this`winner, this`movements, this`opening
      ensures size == n && positions == src && humanPlayers == HumanPlayers(true, true)
      ensures turn == t && winner == w && movements == m && opening == o
      ensures blueGraph == old(blueGraph) && redGraph == old(redGraph)
    {
      size, positions, humanPlayers := n, src, HumanPlayers(true, true);
      turn, winner, movements, opening := t, w, m, o;
    }

    /** Takes over two graphs wired for the current owners. */
    method Attach(blue: Graph, red: Graph)
      requires 1 <= size && size * size < INT_MAX && WellFormed(size, positions) && humanPlayers == HumanPlayers(true, true) && Bookkept()
      requires blue != red && blue.limits != red.limits && Fits(size, blue) && Fits(size, red)
      requires blue.EdgeSet() == PlayerEdges(size, positions, Blue) && red.EdgeSet() == PlayerEdges(size, positions, Red)
      modifies this`blueGraph, this`redGraph
      ensures Valid() && blueGraph == blue && redGraph == red
      ensures size == old(size) && positions == old(positions) && humanPlayers == old(humanPlayers)
      ensures turn == old(turn) && winner == old(winner) && movements == old(movements) && opening == old(opening)
    {
      blueGraph, redGraph := blue, red;
    }

    /** `next` on an all-human board: hand the move to the other colour and count it. */
    method Next()
      modifies this`turn, this`movements
      ensures turn == Other(old(turn)) && movements == old(movements) + 1
      ensures size == old(size) && positions == old(positions) && winner == old(winner) && opening == old(opening)
      ensures blueGraph == old(blueGraph) && redGraph == old(redGraph) && humanPlayers == old(humanPlayers)
    {
      if turn == Blue {
        turn := Red;
      } else if turn == Red {
        turn := Blue;
      }
      movements := movements + 1;
    }

    /**
     * `checkGame`: a player whose graph joins the two corner cells wins,
     * Red over Blue when both do, and the game is then over.
     */
    method CheckGame()
      requires Wired()
      modifies this`turn, this`winner
      ensures Wired() && winner == Outcome(size, positions, old(winner))
      ensures turn == if Decided(size, positions) then Undecided else old(turn)
      ensures size == old(size) && positions == old(positions) && movements == old(movements) && opening == old(opening)
      ensures blueGraph == old(blueGraph) && redGraph == old(redGraph) && humanPlayers == old(humanPlayers)
    {
      winner, turn := Judge(size, blueGraph, redGraph, positions, winner, turn);
    }

    /** `positions[at] = turn` and the wiring of the mover's graph. */
    method Claim(at: Position)
      requires Wired() && Exists(size, at.row, at.col) && positions[at.row][at.col] == Undecided
      modifies this`positions, blueGraph, blueGraph.limits, redGraph, redGraph.limits
      ensures Wired() && positions == Place(old(positions), at.row, at.col, turn)
      ensures size == old(size) && turn == old(turn) && winner == old(winner)
      ensures movements == old(movements) && opening == old(opening)
      ensures blueGraph == old(blueGraph) && redGraph == old(redGraph) && humanPlayers == old(humanPlayers)
    {
      var n := size;
      var next := ClaimCell(n, blueGraph, redGraph, positions, at, turn);
      positions := next;
    }

    /**
     * `set`: the mover claims an empty cell, its graph is wired, the game
     * is checked when asked, and the move passes on. A finished game and a
     * taken cell are refused and change nothing.
     */
    method Set(row: int, col: int, checkWinner: bool) returns (status: Status)
      requires Valid() && Exists(size, row, col)
      modifies this, blueGraph, blueGraph.limits, redGraph, redGraph.limits
      ensures Valid() && size == old(size)
      ensures blueGraph == old(blueGraph) && redGraph == old(redGraph)
      ensures status == if old(turn) == Undecided then Failed(GameOver)
                        else if old(positions)[row][col] != Undecided then Failed(CellTaken)
                        else Done
      ensures status.Failed? ==>
        && positions == old(positions) && turn == old(turn) && winner == old(winner)
        && movements == old(movements) && opening == old(opening)
      ensures status.Done? ==>
        && positions == Place(old(positions), row, col, old(turn))
        && movements == old(movements) + 1
        && opening == (if old(movements) == 0 then Position(row, col) else old(opening))
        && winner == (if checkWinner then Outcome(size, positions, old(winner)) else old(winner))
        && turn == (if checkWinner && Decided(size, positions) then Undecided else Other(old(turn)))
    {
      if turn == Undecided {
        return Failed(GameOver);
      }
      if positions[row][col] != Undecided {
        return Failed(CellTaken);
      }
      var at := Position(row, col);
      SetBookkeeping(size, positions, turn, winner, movements, opening, at, checkWinner);
      if opening.row == -1 || opening.col == -1 {
        opening := at;
      }
      Claim(at);
      Conclude(checkWinner);
      return Done;
    }

    /** The end of `set`: `checkGame` when asked, then `next`. */
    method Conclude(checkWinner: bool)
      requires Wired()
      modifies this`turn, this`winner, this`movements
      ensures Wired()
      ensures winner == (if checkWinner then Outcome(size, positions, old(winner)) else old(winner))
      ensures turn == (if checkWinner && Decided(size, positions) then Undecided else Other(old(turn)))
      ensures movements == old(movements) + 1
      ensures size == old(size) && positions == old(positions) && opening == old(opening)
      ensures blueGraph == old(blueGraph) && redGraph == old(redGraph) && humanPlayers == old(humanPlayers)
    {
      if checkWinner {
        CheckGame();
      }
      Next();
    }

    /** `get`: the owner of a cell. */
    function Get(row: int, col: int): (t: Turn)
      reads this`size, this`positions
      requires WellFormed(size, positions) && Exists(size, row, col)
      ensures t != Undecided <==> Position(row, col) in Stones(size, positions)
    {
      positions[row][col]
    }

    /**
     * `pieRule`: right after Blue's opening, Red takes the opening cell
     * over and Blue moves next. The graphs are left as they are, which is
     * right because a lone stone touches no stone of its colour.
     */
    method PieRule() returns (status: Status)
      requires Valid()
      modifies this`positions, this`turn, this`movements
      ensures Valid()
      ensures status == if old(movements) != 1 || old(turn) != Red then Failed(PieRuleRefused) else Done
      ensures status.Failed? ==> positions == old(positions) && turn == old(turn) && movements == old(movements)
      ensures status.Done? ==>
        && positions == Place(old(positions), opening.row, opening.col, Red)
        && turn == Blue && movements == 2
        && OnlyAt(size, positions, opening)
    {
      if movements != 1 {
        return Failed(PieRuleRefused);
      }
      if turn != Red {
        return Failed(PieRuleRefused);
      }
      PieBookkeeping(size, positions, winner, opening);
      LoneEdges(size, positions, Blue, opening);
      LoneEdges(size, positions, Red, opening);
      positions := Place(positions, opening.row, opening.col, turn);
      LoneEdges(size, positions, Blue, opening);
      LoneEdges(size, positions, Red, opening);
      Next();
      return Done;
    }

    /** `forEachPiece`: the occupied cells with their owners, in row-major order. */
    method ForEachPiece() returns (pieces: seq<Piece>)
      requires WellFormed(size, positions)
      ensures forall k :: 0 <= k < |pieces| ==>
        Exists(size, pieces[k].row, pieces[k].col) && pieces[k].owner == positions[pieces[k].row][pieces[k].col]
      ensures Spots(pieces) == Stones(size, positions)
      ensures forall i, j :: 0 <= i < j < |pieces| ==> Before(Spot(pieces[i]), Spot(pieces[j]))
    {
      pieces := [];
      for row := 0 to size
        invariant PiecesBefore(size, positions, pieces, Position(row, 0))
      {
        for col := 0 to size
          invariant PiecesBefore(size, positions, pieces, Position(row, col))
        {
          PiecesNext(size, positions, pieces, row, col);
          if positions[row][col] != Undecided {
            pieces := pieces + [Piece(row, col, positions[row][col])];
          }
        }
        PiecesRow(size, positions, pieces, row);
      }
      PiecesAll(size, positions, pieces);
    }

    /**
     * `forEachEmptyPosition` with the two shuffles given: the cells empty
     * now, visited row index by row index of `rowIds` and, within each,
     * column index by column index of `colIds`.
     */
    method ForEachEmptyPosition(rowIds: seq<int>, colIds: seq<int>) returns (cells: seq<Position>)
      requires WellFormed(size, positions) && IsPermutation(rowIds, size) && IsPermutation(colIds, size)
      ensures cells == EmptyOrder(size, positions, Pairs(rowIds, colIds))
      ensures Distinct(cells) && forall a :: a in cells <==> EmptyAt(size, positions, a)
    {
      cells := [];
      for i := 0 to size
        invariant cells == EmptyOrder(size, positions, Pairs(rowIds[..i], colIds))
      {
        ghost var done := Pairs(rowIds[..i], colIds);
        OrderStart(done, rowIds[i], colIds);
        for j := 0 to size
          invariant cells == EmptyOrder(size, positions, done + Row(rowIds[i], colIds[..j]))
        {
          var row, col := rowIds[i], colIds[j];
          OrderStep(size, positions, done, row, colIds, j);
          if positions[row][col] == Undecided {
            cells := cells + [Position(row, col)];
          }
        }
        OrderRow(rowIds, colIds, i);
      }
      assert rowIds[..size] == rowIds;
      VisitsEveryEmptyCell(size, positions, rowIds, colIds);
    }
  }
}
