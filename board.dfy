/** Cell colours, board values and the geometry shared by the grid, the
    connectivity checker and the heuristic: positions, 4-adjacency, walks,
    and the count of occupied cells. */
module Boards {

  /** PieceColour: the two players and the empty cell. */
  datatype Piece = White | Black | None

  /** The player who moves after `p` (GameImpl swaps WHITE and BLACK): always a
      real player other than the mover, and two passes bring the turn back. */
  function Other(p: Piece): (q: Piece)
    ensures q != None && q != p
    ensures p != None ==> {p, q} == {White, Black}
  {
    if p == White then Black
    else assert p == Black ==> {p, White} == {White, Black}; White
  }

  /** The contents of an N x N grid as a value, row by row. */
  type Board = seq<seq<Piece>>

  predicate IsSquare(b: Board) {
    forall i | 0 <= i < |b| :: |b[i]| == |b|
  }

  /** The board of a freshly created grid: every cell NONE. */
  function EmptyBoard(n: nat): (b: Board)
    ensures |b| == n && IsSquare(b)
    ensures forall i, j | 0 <= i < n && 0 <= j < n :: b[i][j] == None
  {
    seq(n, i => seq(n, j => None))
  }

  /** Two square boards of the same size with the same cells are equal. */
  lemma SameBoard(b: Board, c: Board)
    requires IsSquare(b) && IsSquare(c) && |b| == |c|
    requires forall i, j | 0 <= i < |b| && 0 <= j < |b| :: b[i][j] == c[i][j]
    ensures b == c
  {
    forall i | 0 <= i < |b| ensures b[i] == c[i] {
      assert |b[i]| == |c[i]|;
    }
  }

  /** A (row, col) pair; also the cell of a path or of the heuristic's queue. */
  datatype Position = Position(row: int, col: int)

  predicate InBounds(n: int, q: Position) {
    0 <= q.row < n && 0 <= q.col < n
  }

  function At(b: Board, q: Position): Piece
    requires IsSquare(b) && InBounds(|b|, q)
  {
    b[q.row][q.col]
  }

  /** Two cells are 4-adjacent when they differ by one in exactly one coordinate. */
  predicate Adjacent(q: Position, r: Position) {
    (q.row == r.row && (q.col == r.col + 1 || q.col + 1 == r.col)) ||
    (q.col == r.col && (q.row == r.row + 1 || q.row + 1 == r.row))
  }

  /** The neighbour offsets, in the order both searches try them: up, down, left, right. */
  const Directions: seq<(int, int)> := [(-1, 0), (1, 0), (0, -1), (0, 1)]

  function Step(q: Position, k: nat): (r: Position)
    requires k < 4
    ensures Adjacent(q, r)
  {
    Position(q.row + Directions[k].0, q.col + Directions[k].1)
  }

  /** The four offsets reach every 4-adjacent cell. */
  lemma AdjacentIsStep(q: Position, r: Position) returns (k: nat)
    requires Adjacent(q, r)
    ensures k < 4 && Step(q, k) == r
  {
    if r.row == q.row - 1 { k := 0; }
    else if r.row == q.row + 1 { k := 1; }
    else if r.col == q.col - 1 { k := 2; }
    else { k := 3; }
  }

  /** A non-empty sequence of in-bounds cells, each 4-adjacent to the next:
      a single cell, or a walk extended by a cell adjacent to its last one. */
  ghost predicate IsWalk(n: int, w: seq<Position>) {
    |w| > 0 && InBounds(n, w[|w| - 1]) &&
    (|w| > 1 ==> IsWalk(n, w[..|w| - 1]) && Adjacent(w[|w| - 2], w[|w| - 1]))
  }

  /** The walk read position by position. */
  lemma {:induction false} WalkCells(n: int, w: seq<Position>)
    requires IsWalk(n, w)
    ensures forall i | 0 <= i < |w| :: InBounds(n, w[i])
    ensures forall i | 0 <= i < |w| - 1 :: Adjacent(w[i], w[i + 1])
  {
    if |w| > 1 {
      var init := w[..|w| - 1];
      WalkCells(n, init);
      assert forall i | 0 <= i < |init| :: init[i] == w[i];
    }
  }

  function Last<T>(w: seq<T>): T
    requires |w| > 0
  {
    w[|w| - 1]
  }

  /** Number of non-NONE cells in a row. */
  function CountRow(row: seq<Piece>): nat {
    if row == [] then 0
    else CountRow(row[..|row| - 1]) + (if Last(row) != None then 1 else 0)
  }

  /** Number of non-NONE cells on a board: what GameImpl counts in movesMade. */
  function Count(b: Board): nat {
    if b == [] then 0 else Count(b[..|b| - 1]) + CountRow(Last(b))
  }

  lemma {:induction false} CountRowUpdate(row: seq<Piece>, c: int, x: Piece)
    requires 0 <= c < |row| && row[c] == None && x != None
    ensures CountRow(row[c := x]) == CountRow(row) + 1
  {
    var row' := row[c := x];
    if c < |row| - 1 {
      assert row'[..|row'| - 1] == row[..|row| - 1][c := x];
      CountRowUpdate(row[..|row| - 1], c, x);
    } else {
      assert row'[..|row'| - 1] == row[..|row| - 1];
    }
  }

  /** Placing a piece on an empty cell adds exactly one to the count. */
  lemma {:induction false} CountUpdate(b: Board, r: int, c: int, x: Piece)
    requires 0 <= r < |b| && 0 <= c < |b[r]| && b[r][c] == None && x != None
    ensures Count(b[r := b[r][c := x]]) == Count(b) + 1
  {
    var b' := b[r := b[r][c := x]];
    if r < |b| - 1 {
      assert b'[..|b'| - 1] == b[..|b| - 1][r := b[r][c := x]];
      CountUpdate(b[..|b| - 1], r, c, x);
    } else {
      assert b'[..|b'| - 1] == b[..|b| - 1];
      CountRowUpdate(b[r], c, x);
    }
  }

  lemma {:induction false} CountRowBound(row: seq<Piece>)
    ensures CountRow(row) <= |row|
    ensures CountRow(row) == |row| <==> forall j | 0 <= j < |row| :: row[j] != None
  {
    if row != [] {
      var init := row[..|row| - 1];
      CountRowBound(init);
      if CountRow(row) == |row| {
        forall j | 0 <= j < |row| ensures row[j] != None {
          if j < |row| - 1 { assert row[j] == init[j]; }
        }
      }
      if forall j | 0 <= j < |row| :: row[j] != None {
        forall j | 0 <= j < |init| ensures init[j] != None {
          assert init[j] == row[j];
        }
      }
    }
  }

  /** A board with rows of length n holds at most rows * n pieces, and exactly
      that many only when no cell is NONE. */
  lemma {:induction false} CountBound(b: Board, n: nat)
    requires forall i | 0 <= i < |b| :: |b[i]| == n
    ensures Count(b) <= |b| * n
    ensures Count(b) == |b| * n <==> forall i, j | 0 <= i < |b| && 0 <= j < n :: b[i][j] != None
  {
    if b != [] {
      var init := b[..|b| - 1];
      CountBound(init, n);
      CountRowBound(Last(b));
      assert |b| * n == |init| * n + n;
      if Count(b) == |b| * n {
        forall i, j | 0 <= i < |b| && 0 <= j < n ensures b[i][j] != None {
          if i < |b| - 1 { assert b[i] == init[i]; }
        }
      }
      if forall i, j | 0 <= i < |b| && 0 <= j < n :: b[i][j] != None {
        forall i, j | 0 <= i < |init| && 0 <= j < n ensures init[i][j] != None {
          assert init[i] == b[i];
        }
      }
    }
  }

  lemma {:induction false} CountRowNone(row: seq<Piece>)
    requires forall j | 0 <= j < |row| :: row[j] == None
    ensures CountRow(row) == 0
  {
    if row != [] { CountRowNone(row[..|row| - 1]); }
  }

  /** An all-NONE board counts zero pieces. */
  lemma {:induction false} CountEmpty(b: Board)
    requires forall i, j | 0 <= i < |b| && 0 <= j < |b[i]| :: b[i][j] == None
    ensures Count(b) == 0
  {
    if b != [] {
      CountEmpty(b[..|b| - 1]);
      CountRowNone(Last(b));
    }
  }

  lemma {:induction false} RowCellsBound(s: set<Position>, r: int, m: nat)
    requires forall q | q in s :: q.row == r && 0 <= q.col < m
    ensures |s| <= m
  {
    if m > 0 {
      var s' := s - {Position(r, m - 1)};
      RowCellsBound(s', r, m - 1);
    } else {
      assert s == {} by {
        if q :| q in s { assert false; }
      }
    }
  }

  /** k rows of n cells, counted row by row. */
  function Area(k: nat, n: nat): nat {
    if k == 0 then 0 else Area(k - 1, n) + n
  }

  lemma {:induction false} AreaProduct(k: nat, n: nat)
    ensures Area(k, n) == k * n
  {
    if k > 0 {
      AreaProduct(k - 1, n);
      assert k * n == (k - 1) * n + n;
    }
  }

  lemma {:induction false} RowsCellsBound(s: set<Position>, k: nat, n: nat)
    requires forall q | q in s :: 0 <= q.row < k && 0 <= q.col < n
    ensures |s| <= Area(k, n)
  {
    if k > 0 {
      var last := set q | q in s && q.row == k - 1;
      var rest := s - last;
      RowCellsBound(last, k - 1, n);
      RowsCellsBound(rest, k - 1, n);
      assert s == rest + last && rest !! last;
    } else {
      assert s == {} by {
        if q :| q in s { assert false; }
      }
    }
  }

  /** At most n * n distinct cells fit on an n x n board. */
  lemma CellsBound(s: set<Position>, n: nat)
    requires forall q | q in s :: InBounds(n, q)
    ensures |s| <= n * n
  {
    RowsCellsBound(s, n, n);
    AreaProduct(n, n);
  }
}
