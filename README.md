# Connection game on a square grid, with an alpha-beta AI

This project models a two-player connection game played on an N×N grid of cells.
WHITE and BLACK take turns placing a piece on an empty cell, and WHITE moves first.
A player wins by joining two opposite edges of the board with a chain of their own pieces, each piece 4-adjacent to the next.
The chain may run from row 0 to row N-1, or from column 0 to column N-1.
A computer player chooses its moves by depth-limited minimax with fail-soft alpha-beta pruning.
Where the search stops, it scores the position with a "minimum pieces" heuristic: a 0/1-weighted Dijkstra search counts how many more pieces the side to move needs.

The model has one Dafny module per part of the program:

- `Errors` (errors.dfy): the exceptions the program throws, as `Result` and `Outcome` values.
- `Boards` (board.dfy): colours, board values, positions, 4-adjacency, walks, and the count of pieces on the board.
- `Grids` (grid.dfy): `GridImpl`. A class over a 2-D array with a ghost `board` view, plus the text rendering.
- `PathFinder` (pathfinder.dfy): the breadth-first connectivity search. It is proved against a ghost "there is a chain of colour p between the edges" predicate.
- `Games` (game.dfy): `GameImpl`. It has a value-level `State`, the `Apply`, `LegalMoves` and `WinnerOf` specifications, and a class whose fields the methods update.
- `Heuristic` (heuristic.dfy): `MinPiecesHeuristic`. Dijkstra over a multiset priority queue, proved equal to the least cost of a route between the edges.
- `AlphaBeta` (alphabeta.dfy): the search as values. It covers the shuffle, the leaf score, the pruned search `AB`, the full minimax value `Value`, the fail-soft window theorem, and the root choice.
- `AI` (minimax.dfy): `Minimax`. The imperative search; each method is proved to compute its `AlphaBeta` counterpart.

The comment at MinPiecesHeuristic.java:35 speaks of empty start cells.
The ternaries at MinPiecesHeuristic.java:36 and :40 give distance 1 to every start cell that is not the player's, an opponent's included.
An opponent's cell is skipped only as a neighbour (MinPiecesHeuristic.java:84-85).
The model follows the code: `SeedCost` is 1 for any start cell that is not the player's own.

The random shuffle of the AI is modelled as Fisher-Yates, the algorithm `Collections.shuffle` uses.
The `Random.nextInt` draws are a parameter `rng`: for each node of the search, it gives the draws as a function of the moves played since the root.
The source creates a new `Random` at every node, and a search visits each sequence of moves at most once.
So every run of the source is one choice of `rng`, and every theorem here holds for all of them.

## Model

| member | source | states |
|---|---|---|
| Boards.Other | GameImpl.java:97 | the turn always passes to a real player other than the mover, and after a real player's move the two players are exactly WHITE and BLACK |
| Boards.EmptyBoard | GridImpl.java:21-29 | a new board is n×n with every cell NONE |
| Boards.SameBoard | GridImpl.java:68-80 | two square boards of one size with equal cells are equal (used for the cell-for-cell copy) |
| Boards.AdjacentIsStep | PathFinder.java:83 | the four direction offsets (up, down, left, right) reach every 4-adjacent cell |
| Boards.WalkCells | PathFinder.java:96-118 | every cell of a walk is in bounds and each cell is 4-adjacent to the next |
| Boards.CountUpdate | GameImpl.java:95-99 | putting a piece on a NONE cell raises the piece count by exactly one |
| Boards.CountBound | GameImpl.java:32 | an n×n board holds at most n·n pieces, and exactly n·n only when every cell is occupied |
| Boards.CountEmpty | GameImpl.java:23-25 | an empty board holds no pieces |
| Boards.CellsBound | PathFinder.java:73 | a set of in-bounds cells of an n×n board has at most n·n members (the bound on cells visited) |
| Grids.Grid.constructor | GridImpl.java:14-30 | a new grid has the given size and every cell NONE |
| Grids.NewGrid | GridImpl.java:17-19 | a size of 0 or less is rejected with InvalidSize; otherwise a fresh all-NONE grid of that size |
| Grids.Grid.GetSize | GridImpl.java:34-36 | the size, which is positive |
| Grids.Grid.GetPiece | GridImpl.java:41-49 | Ok exactly when row and col are in [0, size), and then the stored colour |
| Grids.Grid.SetPiece | GridImpl.java:53-64 | out of range: fails and the board is unchanged; otherwise exactly cell (row, col) becomes the piece |
| Grids.Grid.Copy | GridImpl.java:68-80 | a fresh grid with a fresh array, the same size and the same board |
| Grids.CopyIsIndependent | GridImpl.java:68-80 | after copying and writing into the copy, the original board is as it was and the copy holds the write |
| Grids.Grid.ToString | GridImpl.java:85-111 | the text is the board's rendering, built row by row |
| Grids.RenderShape | GridImpl.java:85-111 | the rendering of an n×n board has n·(n+1) characters; line i holds row i's glyphs and then a newline |
| Grids.RowTextShape | GridImpl.java:91-104 | a row's text has one glyph per cell, W for WHITE, B for BLACK and . for NONE, in column order |
| Grids.RenderRows | GridImpl.java:89-108 | each row contributes its glyphs and a newline, in row order |
| PathFinder.GetOnRow | PathFinder.java:41-53 | exactly the cells of that row holding the colour, in increasing column order |
| PathFinder.GetOnCol | PathFinder.java:56-64 | exactly the cells of that column holding the colour, in increasing row order |
| PathFinder.MonoIsColourPath | PathFinder.java:113 | a walk that only steps between equal colours is exactly a path in the colour of its first cell |
| PathFinder.Visit | PathFinder.java:96-118 | one direction: the neighbour is marked and enqueued only if in bounds, unvisited and of the current cell's colour; the marks mirror the visited set and every visited cell stays reachable from a start |
| PathFinder.Joins | PathFinder.java:101-113 | the test on a neighbour holds exactly when it is in bounds, unvisited and of the current cell's colour |
| PathFinder.Mark | PathFinder.java:116-117 | marking a taken neighbour adds exactly that cell to the visited set, keeps the marks mirroring it, and keeps every visited cell reachable from a start |
| PathFinder.VisitNext | PathFinder.java:96-118 | one pass of the direction loop appends what the direction enqueues and keeps every earlier direction taken |
| PathFinder.Expand | PathFinder.java:96-119 | after the four directions every same-coloured neighbour is visited, and each cell is enqueued at most once |
| PathFinder.Seed | PathFinder.java:70-79 | the queue starts as the starts, all marked visited, and the search invariant holds |
| PathFinder.Round | PathFinder.java:86-119 | one pass: true exactly when the popped cell is an end, and then a same-colour walk from a start reaches an end; otherwise the invariant holds and either more cells are visited (at most size·size) or the queue shrinks |
| PathFinder.NoWayOut | PathFinder.java:122-124 | when the queue empties, no same-colour walk from a start reaches an end |
| PathFinder.FindPath | PathFinder.java:68-125 | true exactly when some walk of equal colours leads from a start to an end |
| PathFinder.TopToBottom | PathFinder.java:128-135 | true exactly when the colour has a 4-adjacent chain from row 0 to row size-1 |
| PathFinder.LeftToRight | PathFinder.java:138-145 | true exactly when the colour has a 4-adjacent chain from column 0 to column size-1 |
| PathFinder.NoStartNoPath | PathFinder.java:76-86 | with none of the colour's pieces on row 0 there is no top-to-bottom chain |
| PathFinder.OneByOne | PathFinder.java:128-145 | on a 1×1 board a colour connects, either way, exactly when it holds the one cell |
| Games.WinnerOf | GameImpl.java:37-50 | WHITE whenever WHITE connects, even if BLACK does too; BLACK only when WHITE does not and BLACK does; NONE otherwise |
| Games.ApplyConsistent | GameImpl.java:95-99 | a legal move puts the mover's piece on exactly that cell, and the piece count and alternation invariants are kept |
| Games.LegalMovesExact | GameImpl.java:60-76 | the move list holds exactly the in-bounds NONE cells, strictly in row-major order (so no duplicates); it is empty exactly when the board is full |
| Games.RowMovesExact | GameImpl.java:65-72 | one row's moves are exactly its NONE cells in increasing column order |
| Games.MovesBeforeMembers | GameImpl.java:64-73 | the moves of the first i rows are exactly the legal moves in those rows |
| Games.MovesBeforeOrdered | GameImpl.java:64-73 | the moves of the first i rows are in strictly row-major order |
| Games.NotOverHasMoves | GameImpl.java:30-33 | a game that is not over has a legal move |
| Games.Game.constructor | GameImpl.java:15-26 | a new game has an empty board of the given size, WHITE to move and no moves made |
| Games.NewGame | GameImpl.java:17-19 | a size of 0 or less is rejected with InvalidSize; otherwise a new game as above |
| Games.Game.Winner | GameImpl.java:37-50 | the winner computed by the two searches is WinnerOf of the board |
| Games.Game.IsOver | GameImpl.java:30-33 | true exactly when there is a winner or movesMade is size·size |
| Games.Game.CurrentPlayer | GameImpl.java:54-56 | the player to move is never NONE, is WHITE exactly when movesMade is even, and is the state's player |
| Games.Game.GetMoves | GameImpl.java:60-76 | the list built by the nested loops is LegalMoves of the board |
| Games.Game.MakeMove | GameImpl.java:80-100 | out of bounds fails with OutOfBounds, an occupied cell with CellOccupied, and either failure changes nothing; otherwise the new state is Apply of the old; the invariants are kept |
| Games.Game.GetGrid | GameImpl.java:104-108 | a fresh grid with the same size and cells |
| Games.Game.Copy | GameImpl.java:112-128 | a fresh game, with a fresh grid, in the same state |
| Games.CopyThenMove | GameImpl.java:112-128 | a move made on a copy leaves the original's state as it was |
| Heuristic.EndsOfSides | MinPiecesHeuristic.java:63 | the top-to-bottom search can stop only on the last row, the left-to-right search only on the last column |
| Heuristic.CheapestExists | MinPiecesHeuristic.java:49-64 | when a route reaches the end edge, some route to the end edge is cheapest |
| Heuristic.MinPiecesIs | MinPiecesHeuristic.java:63-64 | a route to the end edge that no other undercuts has the least cost |
| Heuristic.OwnChainRoute | MinPiecesHeuristic.java:33-88 | a chain of the player's own pieces from the start edge is a route that costs nothing |
| Heuristic.OwnChainCostsNothing | MinPiecesHeuristic.java:63-64 | a player with a top-to-bottom chain needs no more pieces top to bottom |
| Heuristic.RouteExtend | MinPiecesHeuristic.java:76-88 | a step into an open neighbour extends a route and adds 1 for a NONE cell, 0 for an own cell |
| Heuristic.Frontier | MinPiecesHeuristic.java:49-58 | every route to an unfinished cell passes a queued entry no dearer than the route |
| Heuristic.LeastEntry | MinPiecesHeuristic.java:51 | a non-empty queue has an entry of least distance (what poll returns) |
| Heuristic.PopOptimal | MinPiecesHeuristic.java:51-58 | the least entry of an unfinished cell carries that cell's least route cost |
| Heuristic.AllRelaxed | MinPiecesHeuristic.java:68-91 | after the four directions every open neighbour is finished or queued with the current distance plus its step cost |
| Heuristic.Relax | MinPiecesHeuristic.java:69-89 | one direction: an in-bounds unvisited neighbour is queued with +1 if NONE and +0 if own, and an opponent's cell is skipped |
| Heuristic.Mark | MinPiecesHeuristic.java:58 | marking the polled cell makes the marks mirror the finished cells plus that cell |
| Heuristic.Grow | MinPiecesHeuristic.java:68-91 | for a finished cell off the end edge, every open neighbour ends finished or queued at the polled distance plus its step cost; only entries with a route of their cost, no dearer than that distance plus one, are added; the search invariant holds with one more finished cell |
| Heuristic.Expand | MinPiecesHeuristic.java:68-91 | every open neighbour ends finished or queued at the right distance, and every queued entry has a route of that cost |
| Heuristic.Seeded | MinPiecesHeuristic.java:33-43 | the seeded queue satisfies the loop invariant with nothing finished |
| Heuristic.SeedRound | MinPiecesHeuristic.java:34-42 | one seed column or row: a start cell is queued with 0 if it holds the player's piece and 1 otherwise (even an opponent's) |
| Heuristic.Seed | MinPiecesHeuristic.java:26-43 | every start cell is queued at its start cost (0 for the player's own piece, 1 otherwise), and the queue satisfies the loop invariant |
| Heuristic.FreshStep | MinPiecesHeuristic.java:51-91 | finishing a least entry off the end edge keeps the invariant; finished distances never decrease in pop order |
| Heuristic.PopStale | MinPiecesHeuristic.java:54-56 | popping an entry of a finished cell keeps the invariant (each cell is finished once) |
| Heuristic.FoundEnd | MinPiecesHeuristic.java:63-64 | the first finished end cell carries the least route cost, which lies in [0, size·size] |
| Heuristic.Exhausted | MinPiecesHeuristic.java:93-94 | when the queue empties without reaching the end, no route reaches it, so the answer is size·size |
| Heuristic.Settle | MinPiecesHeuristic.java:54-91 | an unfinished least entry is finished; when it is an end, its distance is the answer |
| Heuristic.Round | MinPiecesHeuristic.java:49-92 | one pass of the loop: either the answer, or the invariant kept and progress made |
| Heuristic.Dijkstra | MinPiecesHeuristic.java:24-95 | the result is the least cost of a route from the start edge to the end edge, or size·size when there is none, and lies in [0, size·size] |
| Heuristic.MinPiecesNonNegative | MinPiecesHeuristic.java:94 | the heuristic distance is never negative |
| Heuristic.ConnectedScoresZero | MinPiecesHeuristic.java:98-111 | a player to move who already connects two opposite edges scores 0 |
| Heuristic.Score | MinPiecesHeuristic.java:98-111 | minus the smaller of the two distances for the player to move, in [-size·size, 0]; the game is only read |
| AlphaBeta.Pick | Minimax.java:29 | a draw reduced into [0, bound), as nextInt(bound) returns |
| AlphaBeta.SwapPermutes | Minimax.java:29 | swapping two places permutes the list |
| AlphaBeta.FisherYatesPermutes | Minimax.java:29 | the shuffle keeps the length and the multiset of moves |
| AlphaBeta.ShuffledPermutes | Minimax.java:25-31 | the shuffled list is a permutation of the legal moves: the same length, multiset and members |
| AlphaBeta.OrderLegal | Minimax.java:50-53 | each node's move order holds exactly the legal moves, as many as the game lists |
| AlphaBeta.LeafAtMost | Minimax.java:36-47 | a leaf scores at most MAX, and exactly MAX when the winner is the searching player |
| AlphaBeta.JudgementCapped | Minimax.java:36-47 | no leaf score exceeds MAX |
| AlphaBeta.ChildAt | Minimax.java:58-60 | playing a listed legal move keeps the board square and of the same size |
| AlphaBeta.MaxFoldShift | Minimax.java:54-72 | the running maximum can start from max(a, b) or take a afterwards, with the same result |
| AlphaBeta.MinFoldShift | Minimax.java:76-94 | the running minimum can start from min(a, b) or take a afterwards, with the same result |
| AlphaBeta.ValueAtMost | Minimax.java:34-96 | the full minimax value is at most MAX |
| AlphaBeta.MaxFoldAtMost | Minimax.java:54-72 | a running maximum of values at most MAX stays at most MAX |
| AlphaBeta.ABAtMost | Minimax.java:34-96 | the pruned search returns at most MAX |
| AlphaBeta.MaxLoopAtMost | Minimax.java:54-72 | the maximising loop returns at most MAX |
| AlphaBeta.MinLoopAtMost | Minimax.java:76-94 | the minimising loop never returns more than its starting best |
| AlphaBeta.FailSoftBelow | Minimax.java:64-70 | a child that failed low cannot change what the maximising loop reports |
| AlphaBeta.FailSoftAbove | Minimax.java:86-92 | a child that failed high cannot change what the minimising loop reports |
| AlphaBeta.FailSoftRaised | Minimax.java:70 | a result fail-soft for a raised alpha (at most the true value) is fail-soft for the old alpha |
| AlphaBeta.FailSoftLowered | Minimax.java:92 | a result fail-soft for a lowered beta (at least the true value) is fail-soft for the old beta |
| AlphaBeta.Window | Minimax.java:34-96 | alpha-beta soundness: with MIN ≤ alpha < beta ≤ MAX, the pruned result r and the full minimax value v satisfy r = v when alpha < v < beta, v ≤ r ≤ alpha when v ≤ alpha, and beta ≤ r ≤ v when v ≥ beta |
| AlphaBeta.MaxLoopWindow | Minimax.java:54-72 | the same for the maximising loop against the running maximum, from any point of the loop |
| AlphaBeta.MaxCut | Minimax.java:66-68 | a cut-off at best ≥ beta reports a fail-high value |
| AlphaBeta.MaxLow | Minimax.java:64-70 | a child valued at most alpha leaves the fail-soft property to the rest of the loop |
| AlphaBeta.MaxExact | Minimax.java:64-70 | a child valued inside the window raises alpha to its exact value |
| AlphaBeta.MinLoopWindow | Minimax.java:76-94 | the same for the minimising loop against the running minimum |
| AlphaBeta.MinCut | Minimax.java:88-90 | a cut-off at best ≤ alpha reports a fail-low value |
| AlphaBeta.MinHigh | Minimax.java:86-92 | a child valued at least beta leaves the fail-soft property to the rest of the loop |
| AlphaBeta.MinExact | Minimax.java:86-92 | a child valued inside the window lowers beta to its exact value |
| AlphaBeta.FullWindow | Minimax.java:34-96 | with the window (MIN, MAX), the pruned search returns the full minimax value |
| AlphaBeta.RootLoop | Minimax.java:111-126 | the root loop always returns one of the listed moves |
| AlphaBeta.Choice | Minimax.java:100-127 | the move the AI chooses is legal |
| AlphaBeta.RootStep | Minimax.java:117-124 | at the root a move's pruned score beats the best so far exactly when its true value does, and then it equals the true value |
| AlphaBeta.RootLoopStep | Minimax.java:111-125 | one pass of the root loop: a strictly better score takes over with the child's minimax value, and otherwise the leader stays |
| AlphaBeta.RootLoopPicks | Minimax.java:111-125 | the root loop ends on the first move whose value is strictly greater than all before it and at least all after it |
| AlphaBeta.RootLoopBest | Minimax.java:104-126 | the chosen move is the earliest in the order whose value is the greatest (the first move when all are MIN) |
| AlphaBeta.RulesLoopBest | Minimax.java:104-126 | under minimax's own judge the root loop over any order ends on the earliest move of greatest value |
| AlphaBeta.ChoiceOptimal | Minimax.java:100-127 | the same for the AI's own order: its choice is the earliest shuffled move of greatest minimax value |
| AlphaBeta.ImmediateWin | Minimax.java:100-127 | with maxDepth 1, if some move wins at once, the chosen move wins at once |
| AI.Minimax.constructor | Minimax.java:15-22 | the AI keeps the given depth, which is at least 1 |
| AI.NewMinimax | Minimax.java:17-19 | a depth below 1 is rejected with InvalidDepth; otherwise a fresh AI of that depth |
| AI.Minimax.GetMoves | Minimax.java:25-31 | the game's legal moves, copied into an array and shuffled in place, equal Shuffled of the legal moves and the draws (a permutation by ShuffledPermutes) |
| AI.Minimax.Exchange | Minimax.java:29 | the array afterwards is the old contents with the two places swapped |
| AI.Minimax.LeafScore | Minimax.java:36-47 | MAX if the searching player has won, MIN if the other has, else the heuristic score |
| AI.Minimax.Search | Minimax.java:34-96 | minimax(game, depth, alpha, beta, player) returns AB of the game's state, which the window theorem ties to the full minimax value |
| AI.Minimax.MaxNode | Minimax.java:53-73 | the searching player's loop: the running maximum of child scores, returned as soon as it reaches beta |
| AI.Minimax.MinNode | Minimax.java:75-95 | the opponent's loop: the running minimum of child scores, returned as soon as it reaches alpha |
| AI.Minimax.Child | Minimax.java:58-62 | the search one level down on a copy with the move made |
| AI.Minimax.GetCurrentPlayerMove | Minimax.java:100-127 | no legal move gives Err(NoLegalMoves), which is where moves.get(0) throws; otherwise the result is the legal move Choice, the earliest shuffled move of greatest minimax value (ChoiceOptimal); the game is not modified |
| AI.Minimax.RootSearch | Minimax.java:104-125 | the root loop's move equals RootLoop over the shuffled moves |
| AI.Minimax.RootMove | Minimax.java:113-124 | one pass of the root loop: a strictly greater score takes over the best move and score |

## Left out

- PlayVsAI.java is not part of this model. It is the console loop: reading input, printing the board, and catching bad indices.
- `new Random()` and its uniform distribution are not modelled: the draws are a parameter, so every property holds for every sequence of draws. That every permutation can occur is not proved.
- The `Heuristic` interface is fixed to MinPiecesHeuristic. Minimax is modelled with the heuristic the program uses.
- `long` and `int` widths and overflow are not modelled. Integer.MIN_VALUE and Integer.MAX_VALUE are plain constants.
- AlphaBeta.FullWindow: requires that the full value is at least MIN. A heuristic score below MIN needs a board of size 46341 or more. At that size `grid.getSize() * grid.getSize()` (MinPiecesHeuristic.java:94, GameImpl.java:32) already overflows int, so this case is left out with the other integer widths.
- AlphaBeta.Window: requires MIN ≤ alpha < beta ≤ MAX. At the root, once alpha reaches MAX the window is empty. Later scores can then differ from the true value, but none can exceed the best score, so the root choice is unaffected (RootStep).
- `PieceColour[][]` is modelled as one two-dimensional array, so rows cannot be shared between grids.
- Grids.Grid.SetPiece: the null-colour check is not modelled, because a `Piece` value is never null.
- The `PriorityQueue` is a multiset, and `poll` returns any entry of least distance. Java's tie-breaking among equal distances is not modelled, and the result does not depend on it.
- The `ArrayDeque` is a sequence. `Position.equals`, `hashCode` and `ends.contains` are value equality and sequence membership.
- Exceptions are modelled as `Err` or `Fail` results that leave the state unchanged. This covers the constructors, `getPiece`, `setPiece`, `makeMove`, and `moves.get(0)` on an empty list.
- AI.Minimax.Search: has an extra `hist` parameter, the moves since the root. It only selects the draws for that node's shuffle.
- AI.Minimax.RootSearch: the source keeps `alpha` and `bestScore` as separate variables. The model keeps both too, and proves them equal throughout.
