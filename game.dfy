/** GameImpl: a grid, the player to move and the number of moves made.
    Moves are validated before anything changes; the winner is decided by
    the connectivity checks, WHITE first. */
module Games {
  import opened Errors
  import opened Boards
  import opened Grids
  import opened PathFinder

  /** MoveImpl: the cell a player wants to fill. */
  datatype Move = Move(row: int, col: int)

  /** The game as a value: the board, the player to move, the moves made. */
  datatype State = State(board: Board, player: Piece, moves: int)

  function PosOf(m: Move): Position {
    Position(m.row, m.col)
  }

  /** `p` joins two opposite edges, either way round. */
  ghost predicate Connects(b: Board, p: Piece)
    requires IsSquare(b)
  {
    TopToBottomPath(b, p) || LeftToRightPath(b, p)
  }

  /** winner: WHITE whenever WHITE connects (even if BLACK does too), else
      BLACK when BLACK connects, else NONE. */
  ghost function WinnerOf(b: Board): (w: Piece)
    requires IsSquare(b)
    ensures w == White <==> Connects(b, White)
    ensures w == Black <==> !Connects(b, White) && Connects(b, Black)
    ensures w == None <==> !Connects(b, White) && !Connects(b, Black)
  {
    if Connects(b, White) then White else if Connects(b, Black) then Black else None
  }

  /** isOver: somebody has won, or every cell has been played. */
  ghost predicate Over(s: State)
    requires IsSquare(s.board)
  {
    WinnerOf(s.board) != None || s.moves == |s.board| * |s.board|
  }

  /** What every game keeps: movesMade counts the pieces on the board, and
      WHITE is to move exactly when that count is even. */
  ghost predicate Consistent(s: State) {
    IsSquare(s.board) && |s.board| > 0 &&
    s.moves == Count(s.board) && s.player != None &&
    (s.player == White <==> s.moves % 2 == 0)
  }

  /** A move getMoves offers and makeMove accepts: an in-bounds NONE cell. */
  predicate Legal(b: Board, m: Move)
    requires IsSquare(b)
  {
    InBounds(|b|, PosOf(m)) && b[m.row][m.col] == None
  }

  /** makeMove on a value: the mover's piece on the cell, the other player
      to move, one more move made. */
  function Apply(s: State, m: Move): (t: State)
    requires IsSquare(s.board) && InBounds(|s.board|, PosOf(m))
    ensures IsSquare(t.board) && |t.board| == |s.board|
  {
    State(s.board[m.row := s.board[m.row][m.col := s.player]], Other(s.player), s.moves + 1)
  }

  /** A legal move keeps the game consistent. */
  lemma ApplyConsistent(s: State, m: Move)
    requires Consistent(s) && Legal(s.board, m)
    ensures Consistent(Apply(s, m))
    ensures Apply(s, m).board[m.row][m.col] == s.player
    ensures forall i, j | 0 <= i < |s.board| && 0 <= j < |s.board| && (i, j) != (m.row, m.col) ::
      Apply(s, m).board[i][j] == s.board[i][j]
  {
    CountUpdate(s.board, m.row, m.col, s.player);
  }

  /** `m` comes before `m'` in row-major order. */
  predicate RowMajorBefore(m: Move, m': Move) {
    m.row < m'.row || (m.row == m'.row && m.col < m'.col)
  }

  /** The NONE cells of row r in columns [0, j), left to right. */
  function RowMoves(b: Board, r: int, j: nat): seq<Move>
    requires IsSquare(b) && 0 <= r < |b| && j <= |b|
  {
    if j == 0 then []
    else RowMoves(b, r, j - 1) + (if b[r][j - 1] == None then [Move(r, j - 1)] else [])
  }

  /** The NONE cells of rows [0, i), in row-major order. */
  function MovesBefore(b: Board, i: nat): seq<Move>
    requires IsSquare(b) && i <= |b|
  {
    if i == 0 then [] else MovesBefore(b, i - 1) + RowMoves(b, i - 1, |b|)
  }

  /** getMoves: every NONE cell of the board, in row-major order. */
  function LegalMoves(b: Board): seq<Move>
    requires IsSquare(b)
  {
    MovesBefore(b, |b|)
  }

  lemma {:induction false} RowMovesExact(b: Board, r: int, j: nat)
    requires IsSquare(b) && 0 <= r < |b| && j <= |b|
    ensures forall m :: m in RowMoves(b, r, j) <==> m.row == r && 0 <= m.col < j && b[r][m.col] == None
    ensures forall k, l | 0 <= k < l < |RowMoves(b, r, j)| :: RowMoves(b, r, j)[k].col < RowMoves(b, r, j)[l].col
  {
    if j > 0 {
      RowMovesExact(b, r, j - 1);
    }
  }

  lemma {:induction false} MovesBeforeMembers(b: Board, i: nat)
    requires IsSquare(b) && i <= |b|
    ensures forall m :: m in MovesBefore(b, i) <==> 0 <= m.row < i && Legal(b, m)
  {
    if i > 0 {
      MovesBeforeMembers(b, i - 1);
      RowMovesExact(b, i - 1, |b|);
    }
  }

  /** Row-major order is kept by appending a later row. */
  lemma AppendRow(p: seq<Move>, q: seq<Move>, r: int)
    requires forall k, l | 0 <= k < l < |p| :: RowMajorBefore(p[k], p[l])
    requires forall k | 0 <= k < |p| :: p[k].row < r
    requires forall k | 0 <= k < |q| :: q[k].row == r
    requires forall k, l | 0 <= k < l < |q| :: q[k].col < q[l].col
    ensures forall k, l | 0 <= k < l < |p + q| :: RowMajorBefore((p + q)[k], (p + q)[l])
  {
  }

  lemma {:induction false} MovesBeforeOrdered(b: Board, i: nat)
    requires IsSquare(b) && i <= |b|
    ensures forall k | 0 <= k < |MovesBefore(b, i)| :: MovesBefore(b, i)[k].row < i
    ensures forall k, l | 0 <= k < l < |MovesBefore(b, i)| ::
      RowMajorBefore(MovesBefore(b, i)[k], MovesBefore(b, i)[l])
  {
    if i > 0 {
      MovesBeforeOrdered(b, i - 1);
      RowMovesExact(b, i - 1, |b|);
      var q := RowMoves(b, i - 1, |b|);
      assert forall k | 0 <= k < |q| :: q[k] in q;
      AppendRow(MovesBefore(b, i - 1), q, i - 1);
    }
  }

  /** getMoves returns exactly the legal moves, each once, in row-major
      order; it returns none exactly when every cell holds a piece. */
  lemma LegalMovesExact(b: Board)
    requires IsSquare(b)
    ensures forall m :: m in LegalMoves(b) <==> Legal(b, m)
    ensures forall k, l | 0 <= k < l < |LegalMoves(b)| :: RowMajorBefore(LegalMoves(b)[k], LegalMoves(b)[l])
    ensures LegalMoves(b) == [] <==> Count(b) == |b| * |b|
  {
    MovesBeforeMembers(b, |b|);
    MovesBeforeOrdered(b, |b|);
    CountBound(b, |b|);
    if LegalMoves(b) == [] {
      forall i, j | 0 <= i < |b| && 0 <= j < |b|
        ensures b[i][j] != None
      {
        assert Move(i, j) !in LegalMoves(b);
      }
    } else {
      assert LegalMoves(b)[0] in LegalMoves(b);
    }
  }

  /** A consistent game that is not over still has a legal move. */
  lemma NotOverHasMoves(s: State)
    requires Consistent(s) && !Over(s)
    ensures LegalMoves(s.board) != []
  {
    LegalMovesExact(s.board);
  }

  class Game {
    const grid: Grid
    var currentPlayer: Piece
    var movesMade: int

    /** The game's fields as a value. */
    ghost function Model(): State
      reads this, grid
    {
      State(grid.board, currentPlayer, movesMade)
    }

    ghost predicate Valid()
      reads this, grid, grid.cells
    {
      grid.Valid() && Consistent(Model())
    }

    /** A new game: an empty board of the given size, WHITE to move, no moves made. */
    constructor (size: int)
      requires size > 0
      ensures Valid() && fresh(grid) && fresh(grid.cells)
      ensures grid.size == size && Model() == State(EmptyBoard(size), White, 0)
    {
      grid := new Grid(size);
      currentPlayer := White;
      movesMade := 0;
      new;
      CountEmpty(grid.board);
    }

    /** winner: the connectivity checks, WHITE's before BLACK's. */
    method Winner() returns (w: Piece)
      requires Valid()
      ensures w == WinnerOf(grid.board)
    {
      var t := TopToBottom(grid, White);
      var l := false;
      if !t {
        l := LeftToRight(grid, White);
      }
      if t || l {
        return White;
      }
      t := TopToBottom(grid, Black);
      if !t {
        l := LeftToRight(grid, Black);
      }
      if t || l {
        return Black;
      }
      return None;
    }

    /** isOver: a winner exists, or movesMade has reached size * size. */
    method IsOver() returns (over: bool)
      requires Valid()
      ensures over <==> Over(Model())
    {
      var w := Winner();
      var n := grid.GetSize();
      over := w != None || movesMade == n * n;
    }

    /** currentPlayer: never NONE, and WHITE exactly after an even number of moves. */
    function CurrentPlayer(): (p: Piece)
      reads this, grid, grid.cells
      requires Valid()
      ensures p != None && (p == White <==> movesMade % 2 == 0)
      ensures p == Model().player
    {
      currentPlayer
    }

    /** getMoves: the NONE cells, scanned row by row. */
    method GetMoves() returns (ms: seq<Move>)
      requires Valid()
      ensures ms == LegalMoves(grid.board)
    {
      ghost var b := grid.board;
      var n := grid.GetSize();
      ms := [];
      for row := 0 to n
        invariant ms == MovesBefore(b, row)
      {
        for col := 0 to n
          invariant ms == MovesBefore(b, row) + RowMoves(b, row, col)
        {
          if grid.GetPiece(row, col).value == None {
            ms := ms + [Move(row, col)];
          }
        }
      }
    }

    /** makeMove: a move off the board or onto a piece fails and changes
        nothing; otherwise the mover's piece is placed, the turn passes and
        the count goes up by one. */
    method MakeMove(m: Move) returns (r: Outcome)
      requires Valid()
      modifies this, grid, grid.cells
      ensures Valid()
      ensures r == (if !InBounds(grid.size, PosOf(m)) then Fail(OutOfBounds)
                    else if old(grid.board)[m.row][m.col] != None then Fail(CellOccupied)
                    else Pass)
      ensures r.Fail? ==> Model() == old(Model())
      ensures r.Pass? ==> Model() == Apply(old(Model()), m)
    {
      var n := grid.GetSize();
      if m.row < 0 || m.row >= n || m.col < 0 || m.col >= n {
        return Fail(OutOfBounds);
      }
      if grid.GetPiece(m.row, m.col).value != None {
        return Fail(CellOccupied);
      }
      ghost var s := Model();
      ApplyConsistent(s, m);
      var _ := grid.SetPiece(m.row, m.col, currentPlayer);
      currentPlayer := if currentPlayer == White then Black else White;
      movesMade := movesMade + 1;
      r := Pass;
    }

    /** getGrid: a copy of the board, so callers cannot change the game through it. */
    method GetGrid() returns (c: Grid)
      requires Valid()
      ensures fresh(c) && fresh(c.cells)
      ensures c.Valid() && c.size == grid.size && c.board == grid.board
    {
      c := grid.Copy();
    }

    /** copy: a new game of the same size whose cells, player and count are
        set from this one, cell by cell. */
    method Copy() returns (c: Game)
      requires Valid()
      ensures fresh(c) && fresh(c.grid) && fresh(c.grid.cells)
      ensures c.Valid() && c.grid.size == grid.size && c.Model() == Model()
    {
      ghost var b := grid.board;
      var n := grid.GetSize();
      c := new Game(n);
      c.currentPlayer := currentPlayer;
      c.movesMade := movesMade;
      for i := 0 to n
        invariant c.grid.Valid() && c.grid.size == n
        invariant c.currentPlayer == currentPlayer && c.movesMade == movesMade
        invariant forall i', j | 0 <= i' < n && 0 <= j < n ::
          c.grid.board[i'][j] == if i' < i then b[i'][j] else None
      {
        for j := 0 to n
          invariant c.grid.Valid() && c.grid.size == n
          invariant c.currentPlayer == currentPlayer && c.movesMade == movesMade
          invariant forall i', j' | 0 <= i' < n && 0 <= j' < n ::
            c.grid.board[i'][j'] == if i' < i || (i' == i && j' < j) then b[i'][j'] else None
        {
          var _ := c.grid.SetPiece(i, j, grid.GetPiece(i, j).value);
        }
      }
      SameBoard(c.grid.board, b);
    }
  }

  /** The GameImpl constructor's size check. */
  method NewGame(size: int) returns (r: Result<Game>)
    ensures r.Err? <==> size <= 0
    ensures r.Err? ==> r.error == InvalidSize
    ensures r.Ok? ==> fresh(r.value) && fresh(r.value.grid) && fresh(r.value.grid.cells)
    ensures r.Ok? ==> r.value.Valid() && r.value.Model() == State(EmptyBoard(size), White, 0)
  {
    if size <= 0 {
      return Err(InvalidSize);
    }
    var g := new Game(size);
    r := Ok(g);
  }

  /** A copied game is independent: a move on the copy leaves the original as it was. */
  method CopyThenMove(g: Game, m: Move) returns (c: Game)
    requires g.Valid()
    ensures fresh(c) && c.Valid()
    ensures g.Model() == old(g.Model())
    ensures Legal(g.Model().board, m) ==> c.Model() == Apply(g.Model(), m)
  {
    c := g.Copy();
    var _ := c.MakeMove(m);
  }
}
