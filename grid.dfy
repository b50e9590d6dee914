/** GridImpl: a fixed-size square array of piece colours with bounds-checked
    access, a deep copy and a text rendering. */
module Grids {
  import opened Boards
  import opened Errors

  /** The character toString writes for a cell. */
  function Glyph(p: Piece): char {
    match p
    case White => 'W'
    case Black => 'B'
    case None => '.'
  }

  /** The glyphs of one row, left to right. */
  function RowText(row: seq<Piece>): string {
    if row == [] then [] else RowText(row[..|row| - 1]) + [Glyph(Last(row))]
  }

  /** The rendering of a board: each row's glyphs followed by a newline. */
  function Render(b: Board): string {
    if b == [] then [] else Render(b[..|b| - 1]) + RowText(Last(b)) + ['\n']
  }

  lemma {:induction false} RowTextShape(row: seq<Piece>)
    ensures |RowText(row)| == |row|
    ensures forall j | 0 <= j < |row| :: RowText(row)[j] == Glyph(row[j])
  {
    if row != [] {
      RowTextShape(row[..|row| - 1]);
    }
  }

  /** Where line i starts when every line is n glyphs and a newline: i * (n + 1). */
  function LineStart(i: nat, n: nat): nat {
    if i == 0 then 0 else LineStart(i - 1, n) + n + 1
  }

  lemma {:induction false} LineStartProduct(i: nat, n: nat)
    ensures LineStart(i, n) == i * (n + 1)
  {
    if i > 0 {
      LineStartProduct(i - 1, n);
      assert i * (n + 1) == (i - 1) * (n + 1) + n + 1;
    }
  }

  lemma {:induction false} LineStartMono(i: nat, j: nat, n: nat)
    requires i <= j
    ensures LineStart(i, n) <= LineStart(j, n)
  {
    if i < j { LineStartMono(i, j - 1, n); }
  }

  /** Line i of such a rendering, newline included (empty past the end). */
  function Line(s: string, i: nat, n: nat): string {
    if LineStart(i + 1, n) <= |s| then s[LineStart(i, n)..LineStart(i + 1, n)] else []
  }

  /** Appending text after a complete line leaves that line as it was. */
  lemma LineOfPrefix(p: string, x: string, i: nat, n: nat)
    requires LineStart(i + 1, n) <= |p|
    ensures Line(p + x, i, n) == Line(p, i, n)
  {
    LineStartMono(i, i + 1, n);
    assert (p + x)[LineStart(i, n)..LineStart(i + 1, n)] == p[LineStart(i, n)..LineStart(i + 1, n)];
  }

  lemma {:induction false} RenderRows(b: Board, n: nat)
    requires forall i | 0 <= i < |b| :: |b[i]| == n
    ensures |Render(b)| == LineStart(|b|, n)
    ensures forall i | 0 <= i < |b| :: Line(Render(b), i, n) == RowText(b[i]) + ['\n']
  {
    if b != [] {
      var k := |b| - 1;
      var init := b[..k];
      RenderRows(init, n);
      RowTextShape(b[k]);
      var r := Render(b);
      var p := Render(init);
      assert r == p + RowText(b[k]) + ['\n'];
      forall i | 0 <= i < |b|
        ensures Line(r, i, n) == RowText(b[i]) + ['\n']
      {
        LineStartMono(i + 1, |b|, n);
        if i < k {
          LineStartMono(i + 1, k, n);
          assert init[i] == b[i];
          LineOfPrefix(p, RowText(b[k]) + ['\n'], i, n);
          assert r == p + (RowText(b[k]) + ['\n']);
        } else {
          assert r[LineStart(k, n)..] == RowText(b[k]) + ['\n'];
        }
      }
    }
  }

  /** toString's output on an n x n board: n * (n + 1) characters, and line i
      (the n + 1 characters from i * (n + 1)) holds row i's glyphs, left to
      right (RowTextShape), followed by a newline. */
  lemma RenderShape(b: Board)
    requires IsSquare(b)
    ensures |Render(b)| == |b| * (|b| + 1)
    ensures forall i | 0 <= i < |b| :: Line(Render(b), i, |b|) == RowText(b[i]) + ['\n']
  {
    RenderRows(b, |b|);
    LineStartProduct(|b|, |b|);
  }

  class Grid {
    const size: int
    const cells: array2<Piece>
    /** The grid's contents as a board value. */
    ghost var board: Board

    ghost predicate Valid()
      reads this, cells
    {
      0 < size && cells.Length0 == size && cells.Length1 == size &&
      |board| == size && IsSquare(board) &&
      forall i, j | 0 <= i < size && 0 <= j < size :: board[i][j] == cells[i, j]
    }

    /** Allocates the array and fills every row with NONE. */
    constructor (size: int)
      requires size > 0
      ensures Valid() && this.size == size && fresh(cells)
      ensures board == EmptyBoard(size)
    {
      this.size := size;
      var a := new Piece[size, size];
      for i := 0 to size
        invariant forall i', j | 0 <= i' < i && 0 <= j < size :: a[i', j] == None
      {
        for j := 0 to size
          invariant forall i', j' | 0 <= i' < i && 0 <= j' < size :: a[i', j'] == None
          invariant forall j' | 0 <= j' < j :: a[i, j'] == None
        {
          a[i, j] := None;
        }
      }
      cells := a;
      board := EmptyBoard(size);
    }

    function GetSize(): (n: int)
      reads this, cells
      requires Valid()
      ensures n == size && n > 0
    {
      size
    }

    /** getPiece: the stored colour, or OutOfBounds outside [0, size). */
    function GetPiece(row: int, col: int): (r: Result<Piece>)
      reads this, cells
      requires Valid()
      ensures r.Ok? <==> InBounds(size, Position(row, col))
      ensures r.Ok? ==> r.value == At(board, Position(row, col))
    {
      if row < 0 || row >= size || col < 0 || col >= size then Err(OutOfBounds)
      else Ok(cells[row, col])
    }

    /** setPiece: out-of-range indices fail and change nothing; otherwise
        exactly cell (row, col) becomes `piece`. */
    method SetPiece(row: int, col: int, piece: Piece) returns (r: Outcome)
      requires Valid()
      modifies this, cells
      ensures Valid()
      ensures r == (if InBounds(size, Position(row, col)) then Pass else Fail(OutOfBounds))
      ensures r.Fail? ==> board == old(board)
      ensures r.Pass? ==> board == old(board)[row := old(board)[row][col := piece]]
    {
      if row < 0 || row >= size || col < 0 || col >= size {
        return Fail(OutOfBounds);
      }
      cells[row, col] := piece;
      board := board[row := board[row][col := piece]];
      r := Pass;
    }

    /** copy: a fresh grid of the same size holding the same cells. */
    method Copy() returns (c: Grid)
      requires Valid()
      ensures fresh(c) && fresh(c.cells)
      ensures c.Valid() && c.size == size && c.board == board
    {
      c := new Grid(size);
      for i := 0 to size
        invariant c.size == size && c.cells.Length0 == size && c.cells.Length1 == size
        invariant forall i', j | 0 <= i' < i && 0 <= j < size :: c.cells[i', j] == cells[i', j]
      {
        for j := 0 to size
          invariant forall i', j' | 0 <= i' < i && 0 <= j' < size :: c.cells[i', j'] == cells[i', j']
          invariant forall j' | 0 <= j' < j :: c.cells[i, j'] == cells[i, j']
        {
          c.cells[i, j] := cells[i, j];
        }
      }
      c.board := board;
    }

    /** toString: the rendering of the board, built row by row. */
    method ToString() returns (s: string)
      requires Valid()
      ensures s == Render(board)
    {
      ghost var b := board;
      s := [];
      for i := 0 to size
        invariant s == Render(b[..i])
      {
        ghost var line := b[i];
        var rowText := [];
        for j := 0 to size
          invariant rowText == RowText(line[..j])
        {
          assert line[..j + 1][..j] == line[..j];
          rowText := rowText + [Glyph(cells[i, j])];
        }
        assert line[..size] == line;
        assert b[..i + 1][..i] == b[..i];
        s := s + rowText + ['\n'];
      }
      assert b[..size] == b;
    }
  }

  /** The Grid constructor's size check: a non-positive size is rejected. */
  method NewGrid(size: int) returns (r: Result<Grid>)
    ensures r.Err? <==> size <= 0
    ensures r.Err? ==> r.error == InvalidSize
    ensures r.Ok? ==> fresh(r.value) && fresh(r.value.cells)
    ensures r.Ok? ==> r.value.Valid() && r.value.size == size && r.value.board == EmptyBoard(size)
  {
    if size <= 0 {
      return Err(InvalidSize);
    }
    var g := new Grid(size);
    r := Ok(g);
  }

  /** Copies share no cells: writing into the copy leaves the original as it was. */
  method CopyIsIndependent(g: Grid, row: int, col: int, piece: Piece) returns (c: Grid)
    requires g.Valid()
    ensures fresh(c) && c.Valid()
    ensures g.board == old(g.board)
    ensures InBounds(g.size, Position(row, col)) ==>
      c.board == g.board[row := g.board[row][col := piece]]
  {
    c := g.Copy();
    var _ := c.SetPiece(row, col, piece);
  }
}
