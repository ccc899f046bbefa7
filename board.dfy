/**
 * Board model of the Reversi rule engine: a square grid of cells, each holding
 * one character ('U' empty, 'W' white, 'B' black), with side n <= 26 so that a
 * coordinate fits in one letter 'a'..'z'.
 *
 * The mutable board is an `array2<char>`; its contents are viewed as a value of
 * type `Grid` (a sequence of rows) by `Cells`, and every specification is
 * stated over that value.
 */
module Board {

  const Empty: char := 'U'
  const White: char := 'W'
  const Black: char := 'B'

  /** Coordinates are single letters, so the board side is at most 26. */
  const MaxSize: int := 26

  /** A (row, column) coordinate. */
  type Pos = (int, int)

  /** The contents of a board, row by row. */
  type Grid = seq<seq<char>>

  /** positionInBounds: the coordinate lies on an n x n board. */
  predicate PositionInBounds(n: int, row: int, col: int)
  {
    row >= 0 && row < n && col >= 0 && col < n
  }

  /** Every cell of the n x n board, as a set of coordinates. */
  function Positions(n: int): (ps: set<Pos>)
    ensures forall p :: p in ps <==> PositionInBounds(n, p.0, p.1)
  {
    set i, j | 0 <= i < n && 0 <= j < n :: (i, j)
  }

  predicate IsSquare(g: Grid, n: int)
  {
    |g| == n && forall i :: 0 <= i < |g| ==> |g[i]| == n
  }

  /** A board array as the source uses one: n x n with n within the letter range. */
  predicate ValidBoard(board: array2<char>, n: int)
  {
    board.Length0 == n && board.Length1 == n && n <= MaxSize
  }

  /** The current contents of a board array. */
  ghost function Cells(board: array2<char>): (g: Grid)
    reads board
    ensures |g| == board.Length0
    ensures forall i :: 0 <= i < board.Length0 ==> |g[i]| == board.Length1
    ensures forall i, j :: 0 <= i < board.Length0 && 0 <= j < board.Length1 ==> g[i][j] == board[i, j]
  {
    seq(board.Length0, i requires 0 <= i < board.Length0 reads board =>
      seq(board.Length1, j requires 0 <= j < board.Length1 reads board => board[i, j]))
  }

  /** Row i of `g`, its first `len` cells, with every cell listed in `cells` overwritten by `colour`. */
  function PaintRow(row: seq<char>, i: int, len: nat, cells: set<Pos>, colour: char): (r: seq<char>)
    requires len <= |row|
    ensures |r| == len
    ensures forall j {:trigger r[j]} :: 0 <= j < len ==> r[j] == if (i, j) in cells then colour else row[j]
  {
    if len == 0 then []
    else PaintRow(row, i, len - 1, cells, colour) + [if (i, len - 1) in cells then colour else row[len - 1]]
  }

  /** The first `len` rows of `g`, with every cell listed in `cells` overwritten by `colour`. */
  function PaintRows(g: Grid, len: nat, cells: set<Pos>, colour: char): (r: Grid)
    requires len <= |g|
    ensures |r| == len
    ensures forall i :: 0 <= i < len ==> r[i] == PaintRow(g[i], i, |g[i]|, cells, colour)
  {
    if len == 0 then []
    else PaintRows(g, len - 1, cells, colour) + [PaintRow(g[len - 1], len - 1, |g[len - 1]|, cells, colour)]
  }

  /** `g` with every cell listed in `cells` overwritten by `colour`. */
  function Paint(g: Grid, cells: set<Pos>, colour: char): (r: Grid)
    ensures |r| == |g|
    ensures forall i :: 0 <= i < |g| ==> |r[i]| == |g[i]|
    ensures forall i, j {:trigger r[i][j]} :: 0 <= i < |g| && 0 <= j < |g[i]| ==>
              r[i][j] == if (i, j) in cells then colour else g[i][j]
  {
    PaintRows(g, |g|, cells, colour)
  }

  /** `g` with the one cell (r, c) overwritten by `x`. */
  function SetCell(g: Grid, r: int, c: int, x: char): (h: Grid)
    requires 0 <= r < |g| && 0 <= c < |g[r]|
  {
    g[r := g[r][c := x]]
  }

  /** Overwriting one cell is painting the singleton set of that cell. */
  lemma SetCellIsPaint(g: Grid, r: int, c: int, x: char)
    requires 0 <= r < |g| && 0 <= c < |g[r]|
    ensures SetCell(g, r, c, x) == Paint(g, {(r, c)}, x)
  {
    GridsEqual(SetCell(g, r, c, x), Paint(g, {(r, c)}, x));
  }

  /** Two grids of the same shape that agree on every cell are equal. */
  lemma GridsEqual(a: Grid, b: Grid)
    requires |a| == |b|
    requires forall i :: 0 <= i < |a| ==> |a[i]| == |b[i]|
    requires forall i, j :: 0 <= i < |a| && 0 <= j < |a[i]| ==> a[i][j] == b[i][j]
    ensures a == b
  {
    forall i | 0 <= i < |a|
      ensures a[i] == b[i]
    {
      assert |a[i]| == |b[i]|;
    }
  }

  /** A board array whose every cell agrees with `g` has contents `g`. */
  lemma CellsAre(board: array2<char>, g: Grid)
    requires |g| == board.Length0 && forall i :: 0 <= i < |g| ==> |g[i]| == board.Length1
    requires forall i, j :: 0 <= i < board.Length0 && 0 <= j < board.Length1 ==> board[i, j] == g[i][j]
    ensures Cells(board) == g
  {
    GridsEqual(Cells(board), g);
  }

  /** Writes `x` into the cell (r, c) of the board array. */
  method SetTile(board: array2<char>, r: int, c: int, x: char)
    requires 0 <= r < board.Length0 && 0 <= c < board.Length1
    modifies board
    ensures Cells(board) == SetCell(old(Cells(board)), r, c, x)
  {
    board[r, c] := x;
    CellsAre(board, SetCell(old(Cells(board)), r, c, x));
  }

  /** Painting no cell leaves the grid as it is. */
  lemma PaintNothing(g: Grid, colour: char)
    ensures Paint(g, {}, colour) == g
  {
    GridsEqual(Paint(g, {}, colour), g);
  }

  /** Painting twice is painting the union once. */
  lemma PaintTwice(g: Grid, a: set<Pos>, b: set<Pos>, colour: char)
    ensures Paint(Paint(g, a, colour), b, colour) == Paint(g, a + b, colour)
  {
    GridsEqual(Paint(Paint(g, a, colour), b, colour), Paint(g, a + b, colour));
  }

  /** The four centre cells of an n x n board. */
  function Centre(n: int): set<Pos>
  {
    var m := n / 2;
    {(m - 1, m - 1), (m - 1, m), (m, m - 1), (m, m)}
  }

  /** The cell of the opening position at (i, j). */
  function Opening(n: int, i: int, j: int): char
  {
    var m := n / 2;
    if (i == m - 1 && j == m - 1) || (i == m && j == m) then White
    else if (i == m && j == m - 1) || (i == m - 1 && j == m) then Black
    else Empty
  }

  /** The opening position of an n x n game. */
  function InitialGrid(n: nat): (g: Grid)
    ensures IsSquare(g, n)
  {
    seq(n, i requires 0 <= i < n => seq(n, j requires 0 <= j < n => Opening(n, i, j)))
  }

  /** The occupied cells of a grid. */
  ghost function Occupied(g: Grid, n: int): set<Pos>
    requires IsSquare(g, n)
  {
    set p | p in Positions(n) && g[p.0][p.1] != Empty
  }

  /**
   * The opening position has exactly four tiles, forming the 2 x 2 block at the
   * centre, white on the main diagonal and black on the other one.
   */
  lemma {:induction false} InitialGridLayout(n: nat)
    requires 2 <= n
    ensures var g, m := InitialGrid(n), n / 2;
      && g[m - 1][m - 1] == White && g[m][m] == White
      && g[m][m - 1] == Black && g[m - 1][m] == Black
      && Occupied(g, n) == Centre(n)
      && |Occupied(g, n)| == 4
      && forall i, j :: 0 <= i < n && 0 <= j < n && (i, j) !in Centre(n) ==> g[i][j] == Empty
  {
    var g, m := InitialGrid(n), n / 2;
    forall p | p in Occupied(g, n)
      ensures p in Centre(n)
    {
      assert g[p.0][p.1] == Opening(n, p.0, p.1);
    }
    forall p | p in Centre(n)
      ensures p in Occupied(g, n)
    {
      assert p in Positions(n);
    }
    assert |{(m - 1, m - 1), (m - 1, m), (m, m - 1)}| == 3;
  }

  /** init_board: fill the n x n area with 'U', then place the four centre tiles. */
  method InitBoard(board: array2<char>, n: int)
    requires ValidBoard(board, n) && 2 <= n
    modifies board
    ensures Cells(board) == InitialGrid(n)
  {
    for i := 0 to n
      invariant forall a, b :: 0 <= a < i && 0 <= b < n ==> board[a, b] == Empty
    {
      for j := 0 to n
        invariant forall a, b :: 0 <= a < i && 0 <= b < n ==> board[a, b] == Empty
        invariant forall b :: 0 <= b < j ==> board[i, b] == Empty
      {
        board[i, j] := Empty;
      }
    }
    board[n / 2 - 1, n / 2 - 1] := White;
    board[n / 2, n / 2 - 1] := Black;
    board[n / 2 - 1, n / 2] := Black;
    board[n / 2, n / 2] := White;
    CellsAre(board, InitialGrid(n));
  }
}
