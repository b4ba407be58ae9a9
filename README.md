# Hex: graph, reachability search, board and Monte-Carlo player

A Dafny model of the core of a terminal Hex game written in C++. It has four layers, one module each, over shared types:

- **`Common`** (`common.dfy`) holds the shared types:
  - the three-valued `Turn`, which is also the owner of a cell and the winner;
  - `Position` and `HumanPlayers`;
  - the exceptions the C++ code throws, as `Error`/`Status`/`Result`;
  - the `int` sentinels.
- **`Graphs`** (`graph.dfy`) is the adjacency list the board stores its connections in.
  - It has a fixed number of nodes and a pool of `{target, next}` edge records.
  - Each node's out-edges form a singly linked chain through the pool. The chain starts at `limits[n].head`, follows `next` and ends at `limits[n].tail`.
  - A ghost view `Adj` (every node's targets in insertion order) and the chain/ownership bookkeeping behind it are tied to the concrete arrays by `Graph.Valid`.
- **`ShortestPaths`** (`dijkstra.dfy`) is the unit-weight Dijkstra search over such a graph.
  - It reuses `distances`, `previous` and `visited` buffers.
  - The priority queue is an abstract bag of nodes, from which a node of least current distance is taken.
  - Its results are stated against an independent definition of paths and reachability.
- **`Boards`** (`board.dfy`) is the game board.
  - It holds the grid of owners, the turn, the winner, the number of moves, the opening cell and one graph per player.
  - `Board.Valid` states the invariant every operation keeps: each player's graph holds exactly that player's two border chains, plus both directions of every pair of touching cells of that player.
  - The board also keeps its move bookkeeping.
- **`MonteCarlo`** (`ai.dfy`) is the score grid with its accessors and the arg-max pick. It also holds the computer player `Ai`: it copies a board, fills the copy at random, checks the winner and rewards or punishes the cells it ended up holding.
- **`Strategies`** (`strategy.dfy`) is `AIStrategy.getNextMove`. It runs `simulationCount + 1` playouts with a fresh player and returns the best cell. That cell is proved to have the highest total score the playouts of the given draws produce, and to be empty whenever the board has an empty cell.

The C++ code's randomness is an input of the model:
- the coin of `flipCoin` is a `seq<bool>`, or a single `bool` for the pie-rule coin;
- the `std::shuffle` permutations inside `forEachEmptyPosition` are sequences that must be permutations of `[0, size)`.

Integers are mathematical. The sentinels `INT_MAX`/`INT_MIN` appear where the code uses `std::numeric_limits<int>`.

A few behaviours of the code worth knowing:
- **`set` does no range check.** The model requires an on-board cell; see "Left out".
- **`pieRule` does not rewire the graphs.** The model proves that this is harmless: a lone stone touches no stone of its colour.
- **`getBestPosition` does not prefer the first cell on ties.** It flips a coin on every tie, including when every cell is deactivated.
- **A playout scores every cell the player holds at the end**, not only the cells occupied before the playout.
- **`Dijkstra::nodesAreConnected` has no body in the source.** It is declared at `src/dijkstra.hpp:51` and documented as "whether the nodes are connected". It is modelled as "`findShortestPath` returns a non-empty path".
- **`src/board.hpp` declares an older single-graph board.** It does not match `src/board.cpp`, and it is not part of this model. The `Positions` container and `MAX_BOARD_SIZE` are defined in a header that is not part of this model:
  - positions are a `seq<seq<Turn>>`;
  - `MAX_BOARD_SIZE` is an unspecified positive constant whose cells have `int` node numbers.

## Model

| member | source | states |
|---|---|---|
| Common.Other | src/board.cpp:128-132 | The colour after a player's move is the other player's; `Undecided` stays `Undecided` and nothing else becomes it. |
| Graphs.Graph.constructor | src/graph.hpp:65-67 | A new graph has the given node count and capacity, no edge records, every limit (-1, -1), an empty edge relation, and satisfies the chain invariant. |
| Graphs.Graph.CountNodes | src/graph.cpp:112-115 | The node count is the number of limits and of per-node chains; it is a constant field, so no operation changes it. |
| Graphs.Graph.CountEdges | src/graph.hpp:117-123 | The number of edge records is the sum of the out-degrees, so a bidirected edge counts twice. |
| Graphs.Graph.ReserveIfNeeded | src/graph.cpp:6-12 | When the pool is as large as the capacity, the capacity becomes capacity * capacity / 2; only the capacity can change, never the edges or the links. |
| Graphs.Graph.AppendEdge | src/graph.cpp:45-55 | Pushing `{to, -1}` and linking it behind `from`'s old tail (or making it the head) appends `to` to `from`'s chain, adds one record and keeps the chain invariant. |
| Graphs.ThreadedAppend | src/graph.cpp:45-55 | The linked-list-in-an-array invariant survives the append: each chain still starts at head, follows `next` through its targets in insertion order and ends at tail and then -1. |
| Graphs.Graph.Connect | src/graph.cpp:21-60 | `OutOfRange` exactly when an endpoint is not a node, and then no edge changes; otherwise the directions asked for are present afterwards, the directions already present are not duplicated (except a second `from -> to` when only that direction existed and a bidirected connect was asked), and the edge count never decreases. |
| Graphs.Graph.BidirectedConnect | src/graph.cpp:68-71 | As `Connect` with both directions: the edge relation gains exactly (from, to) and (to, from). |
| Graphs.Graph.DirectedConnect | src/graph.cpp:79-82 | As `Connect` with one direction: the edge relation gains exactly (from, to). |
| Graphs.Graph.NodesAreConnected | src/graph.cpp:92-105 | True exactly when both endpoints are nodes and `to` is on `from`'s chain; false for any endpoint outside the graph; the graph is not changed. |
| Graphs.Graph.ForEachEdgeFrom | src/graph.cpp:132-137 | The edges leaving a node, in the order they were inserted. |
| Graphs.Graph.ForEachEdge | src/graph.cpp:142-147 | Every node's out-edges, node 0 first; as many edges as `countEdges`. |
| Graphs.AllEdgesFacts | src/graph.cpp:142-147 | The listing is ordered by source node, lists only edges of the graph and lists every edge of the graph. |
| Graphs.AllEdgesLength | src/graph.cpp:142-147 | The listing has one entry per edge record of the nodes listed. |
| Graphs.WithEdgeAdds | src/graph.cpp:37-58 | After a connect `to` is a successor of `from` (and `from` of `to` when bidirectional), and every earlier chain is a prefix of its new one: edges are never removed. |
| Graphs.WithEdgeEdges | src/graph.cpp:37-58 | The edge relation after a connect is the old one plus exactly the directions asked for. |
| Graphs.WithEdgeCount | src/graph.cpp:37-58 | A directed connect of an existing edge and a bidirected one with both directions present add nothing; a fresh directed edge adds one record, a fresh bidirected pair two, a self-loop one, and a bidirected connect with only `from -> to` present adds two (a duplicate `from -> to` and `to -> from`). |
| Graphs.AppendCount | src/graph.cpp:45-47 | Appending one target adds one to the edge count. |
| Graphs.AppendEdges | src/graph.cpp:45-55 | Appending `to` to `from`'s chain adds exactly (from, to) to the edge relation. |
| Graphs.AppendTargets | src/graph.cpp:45 | Appending a node target keeps every target a node of the graph. |
| Graphs.AsWrittenAdmitsMissingNode | src/graph.cpp:25-35 | The range test as written accepts the endpoint `nodes`, which the intended test rejects. |
| Graphs.ConnectRejectsExactly | src/graph.cpp:25-35 | The corrected test rejects exactly the endpoints that do not index `limits`, and whatever it accepts the written test accepts too. |
| ShortestPaths.ReachableEdges | src/dijkstra.hpp:46-51 | Reachability along the adjacency lists is the same as a walk in the graph's edge relation. |
| ShortestPaths.Reversed | src/dijkstra.cpp:72 | The reversal has the same length and holds the elements back to front. |
| ShortestPaths.QueueHasTop | src/dijkstra.hpp:20-27 | A non-empty queue holds a node that `DistanceCompare` ranks below no other, so popping the top yields a node of least current distance. |
| ShortestPaths.TopIsNearest | src/dijkstra.hpp:24-26 | A node no other outranks under `DistanceCompare` has a distance no larger than any queued node's. |
| ShortestPaths.Dijkstra.constructor | src/dijkstra.cpp:9-15 | The buffers hold one entry per node of the graph: distance INT_MAX, no predecessor, not visited; the graph is held by reference. |
| ShortestPaths.Dijkstra.ResetBuffers | src/dijkstra.cpp:32-34 | Every call starts from the same buffers, so it does not depend on earlier calls. |
| ShortestPaths.Dijkstra.FindShortestPath | src/dijkstra.cpp:25-75 | `OutOfRange` exactly for endpoints outside the graph; otherwise the empty path exactly when `end` is unreachable, else a path from `start` to `end` along graph edges with the fewest edges; `distances[end]` is that path's edge count, or INT_MAX when there is none, so after a search ending at the last node `getPathDistance` reports exactly that; `[start]` when start == end. |
| ShortestPaths.Dijkstra.Run | src/dijkstra.cpp:32-74 | For two nodes of the graph: the empty path exactly when `end` is unreachable, else a shortest path, with `distances[end]` its edge count or INT_MAX when there is none. |
| ShortestPaths.Dijkstra.Search | src/dijkstra.cpp:36-65 | After the loop the buffers form a predecessor tree rooted at `start`, and `end`'s distance is its true distance, or INT_MAX when it cannot be reached. |
| ShortestPaths.Dijkstra.Visit | src/dijkstra.cpp:51-64 | Expanding a nearest unvisited node keeps the search invariant with that node settled. |
| ShortestPaths.Dijkstra.Settle | src/dijkstra.cpp:51 | Marking the popped node visited settles it at its shortest distance. |
| ShortestPaths.Dijkstra.RelaxAll | src/dijkstra.cpp:53-64 | Relaxing every out-edge of the settled node keeps the search invariant, with all of its edges relaxed. |
| ShortestPaths.Dijkstra.RelaxEdge | src/dijkstra.cpp:54-63 | An edge to an unvisited node whose distance improves sets its distance and predecessor and queues it; otherwise nothing changes. |
| ShortestPaths.Dijkstra.TracePath | src/dijkstra.cpp:67-74 | Following `previous` back from `end` and reversing gives a shortest path when it starts at `start`, and the empty path exactly when `end` is unreachable, in which case `end` kept distance INT_MAX. |
| ShortestPaths.Dijkstra.NodesAreConnected | src/dijkstra.hpp:46-51 | `OutOfRange` for endpoints outside the graph; otherwise true exactly when `end` is reachable from `start`. |
| ShortestPaths.Dijkstra.GetPathDistance | src/dijkstra.cpp:82-85 | -1 for an empty graph, otherwise the stored distance of the last node, whatever `end` the last search had; `FindShortestPath` states what that value is after a search to the last node. |
| ShortestPaths.InitInv | src/dijkstra.cpp:38-39 | With `start` at distance 0 and queued, the search invariant holds. |
| ShortestPaths.PoppedIsShortest | src/dijkstra.cpp:41-43 | A node of least distance in the queue has its shortest distance. |
| ShortestPaths.SettleStep | src/dijkstra.cpp:48-51 | Settling a popped unvisited node other than `end` keeps the invariant. |
| ShortestPaths.SettledBound | src/dijkstra.cpp:48-51 | Each settling adds a new node, so at most `nodes` nodes are ever expanded. |
| ShortestPaths.SkipStep | src/dijkstra.cpp:48-49 | Dropping a popped node that was already visited keeps the invariant. |
| ShortestPaths.RelaxStep | src/dijkstra.cpp:53-64 | Relaxing the next out-edge keeps the invariant. |
| ShortestPaths.FinishRelax | src/dijkstra.cpp:53-64 | Once every out-edge is relaxed, the invariant holds again without a node in expansion. |
| ShortestPaths.ExhaustedUnreachable | src/dijkstra.cpp:41-65 | When the queue runs dry before `end` is popped, `end` cannot be reached and keeps distance INT_MAX. |
| ShortestPaths.TrailStep | src/dijkstra.cpp:68-70 | Each step back along `previous` stays in the tree and strictly lowers the distance, so the trace ends. |
| ShortestPaths.TrailEnds | src/dijkstra.cpp:67-74 | The traced list is non-empty; if its reversal starts at `start` it is a shortest path of `distances[end]` edges; otherwise `end` is unreachable and its distance is INT_MAX; start == end gives `[start]`. |
| Boards.CellRange | src/board.cpp:266-273 | `cell` of an existing cell is a node of the `size * size` graph. |
| Boards.CellInjective | src/board.cpp:266-273 | Distinct cells have distinct nodes. |
| Boards.EmptyGrid | src/board.cpp:36 | A fresh grid has `size` rows of `size` cells, all unowned. |
| Boards.AdjacentSymmetric | src/board.cpp:146-186 | The six-offset hex neighbour relation is symmetric and irreflexive. |
| Boards.NeighbourStubs | src/board.cpp:146-186 | The six guarded connects of `connectBlue`/`connectRed` wire exactly the neighbours the player owns. |
| Boards.ConnectStone | src/board.cpp:146-186 | `connectBlue`/`connectRed` add to the graph both directions between the cell and each neighbour the player owns, and nothing else. |
| Boards.ConnectUpper | src/board.cpp:148-155 | The first three guarded connects add the links to the neighbours at (-1, 0), (-1, +1), (0, -1) that the player owns. |
| Boards.ConnectLower | src/board.cpp:157-164 | The last three guarded connects add the links to the neighbours at (0, +1), (+1, -1), (+1, 0) that the player owns. |
| Boards.ConnectIfOwned | src/board.cpp:148-149 | One guarded connect links the neighbour at the offset only when it exists and the player owns it. |
| Boards.ConnectRows | src/board.cpp:10-16 | The first loop of `connectBorders` adds Red's chains along rows 0 and size-1. |
| Boards.ConnectColumns | src/board.cpp:18-24 | The second loop adds Blue's chains along columns 0 and size-1. |
| Boards.BorderGraphs | src/board.cpp:8-25 | Two distinct fresh graphs of `size * size` nodes holding exactly each player's edges on the empty board. |
| Boards.EmptyBoard | src/board.cpp:27-36 | The empty board has no stones and no stone links. |
| Boards.EmptyEdges | src/board.cpp:27-40 | On the empty board a player's edges are its border chains alone. |
| Boards.PlaceStone | src/board.cpp:317-323 | Claiming an empty cell adds exactly the links between it and the claimer's neighbouring stones; the other player's links do not change. |
| Boards.ClaimEdges | src/board.cpp:317-323 | The same at the level of graph node pairs: the claimer's edge relation gains the links of the new stone, the other player's stays as it was. |
| Boards.ClaimCell | src/board.cpp:317-323 | `positions[at] = turn` plus the wiring of the mover's graph leaves each graph holding exactly its player's edges for the new grid. |
| Boards.LoneStone | src/board.cpp:347 | With at most one stone on the board no two cells of one colour touch. |
| Boards.LoneEdges | src/board.cpp:347 | With at most one stone a player's edges are the border chains alone, so recolouring the opening needs no rewiring. |
| Boards.SetBookkeeping | src/board.cpp:304-329 | A move on an empty cell keeps the bookkeeping (game over exactly when won, opening recorded on the first move only and then the only stone), and the "no opening yet" test holds exactly before the first move. |
| Boards.PieBookkeeping | src/board.cpp:337-349 | Red taking over Blue's lone opening keeps the bookkeeping, with Blue to move after two moves. |
| Boards.CopyStones | src/board.cpp:62-74 | Replaying the owners of `src` cell by cell into border-only graphs yields exactly each player's edges for `src`. |
| Boards.RebuildGraphs | src/board.cpp:53-74 | The graphs of a copy are fresh and hold exactly each player's edges for the copied owners. |
| Boards.JoinsCorners | src/board.cpp:231-233 | The query of `checkGame` is true exactly when the graph joins the node of (0, 0) to that of (size-1, size-1). |
| Boards.Judge | src/board.cpp:229-244 | Blue wins if its graph joins the corners, then Red if its graph does (Red over Blue), and any win ends the game; the graphs keep their edges. |
| Boards.PairsFacts | src/board.cpp:445-449 | The visiting order holds exactly the pairs of a listed row and a listed column, without repeats when the lists have none. |
| Boards.EmptyOrderFacts | src/board.cpp:451-452 | The callback order holds exactly the visited cells that are empty, without repeats. |
| Boards.VisitsEveryEmptyCell | src/board.cpp:428-455 | With permutations of the rows and columns the order lists every empty cell once and no occupied cell. |
| Boards.LiveFillKeeps | src/ai.cpp:75-77 | Claiming cells along the order never takes a cell from its owner. |
| Boards.LiveFillCovers | src/ai.cpp:75-77 | Every visited cell ends up owned. |
| Boards.FillCompletes | src/ai.cpp:75-77 | Filling in the order of `forEachEmptyPosition` leaves the board full and keeps every stone. |
| Boards.LiveFillIsPlayOut | src/board.cpp:445-454 | Claiming cells while visiting is the same as listing the empty cells first and claiming those in order: a cell claimed in the walk is never visited again. |
| Boards.PiecesAll | src/board.cpp:419-425 | After the last row the scan has listed every occupied cell. |
| Boards.Board.constructor | src/board.cpp:27-44 | A new board: Blue to move, no winner, no moves, no opening, all cells empty, each graph holding its player's border chains alone. |
| Boards.Board.Copy | src/board.cpp:46-75 | From any consistent board, whoever plays it: the copy has the same size, owners, turn, winner, moves and opening, all-human players, and fresh graphs with the same edge relations. |
| Boards.Board.Assign | src/board.cpp:77-116 | From any consistent board, assignment takes over the same game values and edge relations with all-human players; a self-assignment changes nothing (the players included), any other one builds fresh graphs. |
| Boards.Board.Next | src/board.cpp:126-134 | The turn passes to the other colour (Undecided stays) and the move count goes up by one; nothing else changes. |
| Boards.Board.CheckGame | src/board.cpp:229-244 | The winner becomes the outcome of the two corner queries, the game ends exactly when some player joins the corners, and the graphs keep the board invariant. |
| Boards.Board.Claim | src/board.cpp:317-323 | The mover's cell is set and its graph wired, keeping each graph equal to its player's edges. |
| Boards.Board.Set | src/board.cpp:304-329 | `GameOver` when the game has ended and `CellTaken` on an owned cell, changing nothing; otherwise the cell is the mover's, the opening is recorded on the first move only, the move count rises by one, the winner is checked when asked, and the turn passes on or ends with a win. The board invariant holds throughout. |
| Boards.Board.Conclude | src/board.cpp:325-328 | `checkGame` when asked, then `next`. |
| Boards.Board.Get | src/board.cpp:331-335 | The owner of a cell is a player exactly when the cell holds a stone. |
| Boards.Board.PieRule | src/board.cpp:337-349 | Refused unless one move was made and Red is to move, changing nothing; otherwise the opening becomes Red's, Blue moves, two moves are counted, and the graphs stay valid without rewiring. |
| Boards.Board.ForEachPiece | src/board.cpp:415-426 | The occupied cells with their owners, each exactly once, in row-major order. |
| Boards.Board.ForEachEmptyPosition | src/board.cpp:428-455 | The cells empty now in the shuffled order: every empty cell once and no occupied cell. |
| MonteCarlo.BoardEvaluation.constructor | src/ai.hpp:10-18 | A new evaluation at the given size has every score 0. |
| MonteCarlo.BoardEvaluation.GetScore | src/ai.cpp:8-14 | The score of an in-range cell; `OutOfRange` exactly outside `[0, size)`. |
| MonteCarlo.BoardEvaluation.IncreaseScore | src/ai.cpp:16-22 | `OutOfRange` outside the used square; otherwise the cell gains one point and every other score is unchanged. |
| MonteCarlo.BoardEvaluation.DecreaseScore | src/ai.cpp:24-30 | `OutOfRange` outside the used square; otherwise the cell loses one point and every other score is unchanged. |
| MonteCarlo.BoardEvaluation.Deactivate | src/ai.cpp:32-38 | `OutOfRange` outside the used square; otherwise the cell gets the lowest `int` and every other score is unchanged. |
| MonteCarlo.BoardEvaluation.GetBestPosition | src/ai.cpp:40-59 | For any coin flips the result is an in-range cell whose score is the maximum over the used square, so a unique maximum is returned exactly; (0, 0) for an empty square. |
| MonteCarlo.Ai.constructor | src/ai.hpp:73-77 | A new player studies an empty all-human board of the largest size, with every score 0. |
| MonteCarlo.Ai.ReadBoard | src/ai.cpp:61-65 | From any consistent external board, including one with computer players, the player's board takes over the game exactly, and the scores restart at 0 at that board's size. |
| MonteCarlo.Ai.Rescale | src/ai.cpp:64 | Fresh scores, all 0, at the board's size. |
| MonteCarlo.Ai.Simulate | src/ai.cpp:67-97 | The copy ends in exactly the grid `PlayoutGrid` gives (the pie swap when one move was made and the coin says so, then every empty cell claimed in the shuffled order, colours alternating from the player to move); that grid is full, keeps every stone (all Red after a pie swap), and its winner is the outcome of the full board; then every stone of the real board scores the lowest `int`, every other cell gains one if it ended as the player's and the player won, loses one if it ended as the player's and the player lost, and otherwise keeps its score. The board is not changed. |
| MonteCarlo.Ai.GetBestPosition | src/ai.cpp:99-102 | A board cell of highest score. |
| MonteCarlo.PlayCopy | src/ai.cpp:69-83 | The copy's playout ends in exactly the grid `PlayoutGrid` gives for the board's game and the draws, full with stones kept and a checked winner, and its pieces list every cell once with its final owner. |
| MonteCarlo.Playout | src/ai.cpp:72-80 | Pie rule when called for, every empty cell claimed, one `checkGame`: exactly the grid `PlayoutGrid` gives, full, with its winner the outcome of its two corner queries. |
| MonteCarlo.PlayoutFills | src/ai.cpp:72-77 | From a live game, `PlayoutGrid` is full and keeps the owner of every stone, except that after a pie swap every stone is Red. |
| MonteCarlo.Open | src/ai.cpp:72-73 | The pie rule is applied exactly when one move was made and the coin says so: then the opening cell is Red's, Blue moves and two moves are counted; otherwise the grid, the turn and the count stay as they were. |
| MonteCarlo.FillAndCheck | src/ai.cpp:75-80 | Filling every empty cell and checking once leaves exactly the live fill of the grid in the order `rowIds` x `colIds` from the player to move, a full board that keeps every stone, with its winner checked. |
| MonteCarlo.Fill | src/ai.cpp:75-77 | Claiming the listed empty cells in turn gives exactly `PlayOut` of them: the first cell to the player to move, the next to the other player, and so on. |
| MonteCarlo.FillingStep | src/ai.cpp:75-77 | The next listed cell is still empty when the fill reaches it, and claiming it leaves the rest of the playout unchanged. |
| MonteCarlo.FillingDone | src/ai.cpp:75-77 | Once every listed cell is claimed the grid is their playout. |
| MonteCarlo.PlayOutClaims | src/ai.cpp:75-77 | Playing out distinct empty cells occupies exactly those cells and leaves every other cell as it was. |
| MonteCarlo.Claim | src/ai.cpp:76 | One `set(row, col, false)` on an empty cell succeeds: the cell becomes the mover's, the turn passes to the other player and one more move is counted. |
| MonteCarlo.ClaimStep | src/ai.cpp:76 | A cell empty at the start and not yet claimed is still empty when it is reached. |
| MonteCarlo.FilledFull | src/ai.cpp:75-77 | Claiming exactly the empty cells fills the board and keeps the stones. |
| MonteCarlo.SwappedStones | src/ai.cpp:72-73 | After the pie rule every stone is Red. |
| MonteCarlo.PiecesOwners | src/board.cpp:415-426 | For the pieces `forEachPiece` lists, a cell is covered exactly when it holds a stone, and the owner named is the cell's owner. |
| MonteCarlo.Reward | src/ai.cpp:83-91 | Each of the player's cells of the finished copy gains one point when the player won and loses one otherwise; other cells keep their scores. |
| MonteCarlo.Retire | src/ai.cpp:94-96 | Every stone of the real board gets the lowest `int`; other scores are unchanged. |
| MonteCarlo.Rescore | src/ai.cpp:83-96 | The two scoring passes give every cell its `Rescored` value. |
| MonteCarlo.Rescoring | src/ai.cpp:83-96 | Reward then deactivation gives a cell the lowest `int` if it held a stone, its player points otherwise. |
| Strategies.AIStrategy.constructor | src/strategy.hpp:45-47 | A strategy for the colour, with 100 playouts per move unless told otherwise. |
| Strategies.AIStrategy.GetNextMove | src/strategy.cpp:5-17 | With one draw per run, `simulationCount + 1` of them, the answer is a board cell whose total `Score` over the playouts `Playouts` gives for those draws is the highest of all board cells, and an empty one whenever the board has an empty cell and at least one playout runs. |
| Strategies.Decide | src/strategy.cpp:11-16 | The playouts of the draws, then the pick: a board cell of highest total score, empty when some cell is and a playout ran. |
| Strategies.Prepare | src/strategy.cpp:7-8 | A fresh player on the board's game, every score 0, so nothing leaks between moves. |
| Strategies.ZeroScored | src/strategy.cpp:7-8 | Scores of 0 are the scores of no playout. |
| Strategies.Train | src/strategy.cpp:11-13 | The loop runs one `simulate` per draw, in order, and afterwards every score is the total `Score` of the playouts of all the draws. |
| Strategies.RunOnce | src/strategy.cpp:12 | One `simulate` ends in the grid `PlayoutGrid` gives for its draw, and the scores become those of the earlier playouts plus this one. |
| Strategies.PlayoutsStep | src/strategy.cpp:11-13 | One more draw adds its own playout at the end of the list. |
| Strategies.ScoreStep | src/ai.cpp:83-96 | The score after one more playout is the rescoring, by that playout, of the score before. |
| Strategies.ScoreBounds | src/ai.cpp:83-96 | After at least one playout every stone scores the lowest `int`, and an empty cell's score lies within plus or minus the number of playouts. |
| Strategies.BestIsEmpty | src/ai.cpp:94-96 | After at least one playout a best cell is empty when some cell is: empty cells score above the lowest `int`. |
| Strategies.Pick | src/strategy.cpp:16 | The best position is a board cell of highest total score, and empty when the board has an empty cell after at least one playout. |

## Left out

- Rendering and input: `forEachLine`, `operator<<`, `getX`/`getY` in `src/board.cpp`, the ncurses window, the program's entry point and the display strings in `src/common.cpp`. These are display and I/O only.
- The automatic-move dispatch of the constructor and of `next`, `playComputerMove`, `playBlueMove`, `playRedMove`, `setStrategy` and the virtual `MoveStrategy` interface. Boards are all-human, as every copy the player makes is, and the player is called explicitly.
- `Boards.Board.constructor`: requires `humanPlayers == {true, true}`, because a computer player would re-enter the strategy from the constructor. Boards with computer players are still accepted as the source of `Copy`, `Assign`, `readBoard` and `getNextMove`, which need only `Board.Consistent`. It also requires `size * size < INT_MAX`, so that node numbers and the graph sizes are `int`s.
- `Boards.Board.Next`: models `next` on an all-human board, where nothing follows the turn change.
- `Boards.Board.Set`: requires an on-board cell. The source does no range check, and indexing the positions container (not part of this model) off the board is not defined.
- Randomness: `flipCoin`, `std::random_device`, `mt19937` and `std::shuffle` are inputs, namely coin sequences and permutations. Nothing statistical, such as a fair tie-break, is stated.
- `MonteCarlo.BoardEvaluation.GetBestPosition`: requires at least `size * size` coins, one per possible tie.
- The internals of `std::priority_queue`. The queue is a multiset with minimum extraction. The comparator reading distances that change after a push is not modelled.
- The capacity of `connections` is tracked as a number. The memory reservation is not modelled.
- `ShortestPaths.Dijkstra.FindShortestPath`: requires fewer than `INT_MAX` nodes, so `distances[current] + 1` cannot overflow the `INT_MAX` sentinel. The same holds for `ShortestPaths.Dijkstra.NodesAreConnected`.
- `MonteCarlo.BoardEvaluation.DecreaseScore`: scores are mathematical integers. The C++ `int` overflow of decreasing a score left at `INT_MIN` is not modelled. That is undefined behaviour, and a later `simulate` overwrites the value with `INT_MIN` again. The same holds for `IncreaseScore`.
- `MonteCarlo.Ai.Simulate`: requires a board whose game is not over. With the turn `Undecided` the playout's first `set` throws. Every caller runs it only on a live game.
- `Strategies.AIStrategy.GetNextMove`: requires `simulationCount < INT_MAX`, so the loop counter `i <= simulationCount` cannot overflow. It requires one random draw per playout and enough tie-break coins.
- `MonteCarlo.Ai.ReadBoard`: states the board it took over in terms of the external board's values before the call, which is the same thing, because the external board is only read.
- The Hex theorem, which says a full board has exactly one connecting player. The code does not rely on it; the model states the winner as the outcome of the two queries.
- `MAX_BOARD_SIZE` is not defined in the modelled files. It is left as an unspecified positive constant.
- `isBlue`/`isRed` are folded into the owner comparisons of `connectBlue`/`connectRed`. `current`, `countMovements`, `playerWon`, `getSize`, `getBlueGraph` and `getRedGraph` are field reads.
- `Boards.Board.ForEachPiece` and `Boards.Board.ForEachEmptyPosition` return the cells in callback order. The callbacks of the simulation are then applied to that list (`MonteCarlo.Fill`, `MonteCarlo.Reward`, `MonteCarlo.Retire`).

## Findings

| source | as written | input that shows it | evidently intended | confidence | as-written member | corrected member |
|---|---|---|---|---|---|---|
| src/graph.cpp:25-35 | `connect` refuses only `from > nodes` and `to > nodes`. | `connect(nodes, 0)` on any graph passes both tests and then reads and writes `limits[nodes]`, one past the end. | Refuse `from >= nodes` and `to >= nodes`, as `nodesAreConnected` does. | not executed | Graphs.AsWrittenAdmitsMissingNode | Graphs.ConnectRejectsExactly |

`Graphs.Graph.Connect` uses the corrected test.
