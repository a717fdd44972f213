/** The 8x8 board the chess board component draws: a grid of one-character
    piece codes (lower case for black, upper case for white, the empty string
    for an empty square), its starting position, the copy-then-blank move the
    click handler performs on it, piece counts, and the square-colour rule. */
module Board {

  /** A cell holds the piece code as a string; the empty string is an empty square. */
  type Cell = string

  const Empty: Cell := ""
  const Size: nat := 8

  datatype Square = Square(row: int, col: int)

  predicate OnBoard(q: Square) {
    0 <= q.row < Size && 0 <= q.col < Size
  }

  /** The truthiness the handler tests a cell with: every non-empty string is truthy. */
  predicate Occupied(c: Cell) {
    c != Empty
  }

  /** The codes of the black pieces (the lower-case keys of the glyph table). */
  predicate IsBlackPiece(c: Cell) {
    c in {"r", "n", "b", "q", "k", "p"}
  }

  /** The codes of the white pieces (the upper-case keys of the glyph table). */
  predicate IsWhitePiece(c: Cell) {
    c in {"R", "N", "B", "Q", "K", "P"}
  }

  /** The board as a value: rows 0..7 top to bottom, columns 0..7 left to right. */
  type Grid = seq<seq<Cell>>

  predicate IsGrid(g: Grid) {
    |g| == Size && forall r :: 0 <= r < |g| ==> |g[r]| == Size
  }

  function At(g: Grid, q: Square): Cell
    requires IsGrid(g) && OnBoard(q)
  {
    g[q.row][q.col]
  }

  /** The starting position the component is created with. */
  function InitialBoard(): (g: Grid)
    ensures IsGrid(g)
    ensures forall c :: 0 <= c < Size ==> IsBlackPiece(g[0][c]) && g[1][c] == "p"
    ensures forall r, c :: 2 <= r < 6 && 0 <= c < Size ==> g[r][c] == Empty
    ensures forall c :: 0 <= c < Size ==> g[6][c] == "P" && IsWhitePiece(g[7][c])
    ensures g[0][4] == "k" && g[7][4] == "K" && g[0][3] == "q" && g[7][3] == "Q"
    ensures g[0][0] == g[0][7] == "r" && g[7][0] == g[7][7] == "R"
  {
    var emptyRow := [Empty, Empty, Empty, Empty, Empty, Empty, Empty, Empty];
    [ ["r", "n", "b", "q", "k", "b", "n", "r"],
      ["p", "p", "p", "p", "p", "p", "p", "p"],
      emptyRow,
      emptyRow,
      emptyRow,
      emptyRow,
      ["P", "P", "P", "P", "P", "P", "P", "P"],
      ["R", "N", "B", "Q", "K", "B", "N", "R"] ]
  }

  /** The board with square `q` overwritten by `v`. */
  function Put(g: Grid, q: Square, v: Cell): (h: Grid)
    requires IsGrid(g) && OnBoard(q)
    ensures IsGrid(h)
    ensures forall p :: OnBoard(p) ==> At(h, p) == if p == q then v else At(g, p)
  {
    g[q.row := g[q.row][q.col := v]]
  }

  /** The click handler's move: copy the content of `from` onto `to`, then blank
      `from`. Nothing is checked: `to` may hold any piece, and `to` may be `from`. */
  function Move(g: Grid, from: Square, to: Square): (h: Grid)
    requires IsGrid(g) && OnBoard(from) && OnBoard(to)
    ensures IsGrid(h)
    ensures At(h, from) == Empty
    ensures from != to ==> At(h, to) == At(g, from)
    ensures forall p :: OnBoard(p) && p != from && p != to ==> At(h, p) == At(g, p)
  {
    Put(Put(g, to, At(g, from)), from, Empty)
  }

  function Ind(b: bool): nat {
    if b then 1 else 0
  }

  /** The number of cells of a row that satisfy `p`. */
  function CountRow(row: seq<Cell>, p: Cell -> bool): nat {
    if row == [] then 0 else Ind(p(row[0])) + CountRow(row[1..], p)
  }

  /** The number of cells of a board that satisfy `p`. */
  function Count(g: Grid, p: Cell -> bool): nat {
    if g == [] then 0 else CountRow(g[0], p) + Count(g[1..], p)
  }

  lemma {:induction false} CountRowUpdate(row: seq<Cell>, k: nat, v: Cell, p: Cell -> bool)
    requires k < |row|
    ensures CountRow(row[k := v], p) == CountRow(row, p) - Ind(p(row[k])) + Ind(p(v))
  {
    if k == 0 {
      assert row[k := v][1..] == row[1..];
    } else {
      assert row[k := v][1..] == row[1..][k - 1 := v];
      CountRowUpdate(row[1..], k - 1, v, p);
    }
  }

  lemma {:induction false} CountUpdate(g: Grid, k: nat, w: seq<Cell>, p: Cell -> bool)
    requires k < |g|
    ensures Count(g[k := w], p) == Count(g, p) - CountRow(g[k], p) + CountRow(w, p)
  {
    if k == 0 {
      assert g[k := w][1..] == g[1..];
    } else {
      assert g[k := w][1..] == g[1..][k - 1 := w];
      CountUpdate(g[1..], k - 1, w, p);
    }
  }

  /** Overwriting one square removes its old content from every count and adds the new one. */
  lemma CountPut(g: Grid, q: Square, v: Cell, p: Cell -> bool)
    requires IsGrid(g) && OnBoard(q)
    ensures Count(Put(g, q, v), p) == Count(g, p) - Ind(p(At(g, q))) + Ind(p(v))
  {
    CountRowUpdate(g[q.row], q.col, v, p);
    CountUpdate(g, q.row, g[q.row][q.col := v], p);
  }

  /** Whatever `to` held is lost and one more square is empty; the moving piece
      itself is neither created nor destroyed (unless `to` is `from`, when the
      piece is what `to` held). */
  lemma MoveCount(g: Grid, from: Square, to: Square, p: Cell -> bool)
    requires IsGrid(g) && OnBoard(from) && OnBoard(to)
    ensures Count(Move(g, from, to), p) == Count(g, p) - Ind(p(At(g, to))) + Ind(p(Empty))
  {
    var g1 := Put(g, to, At(g, from));
    CountPut(g, to, At(g, from), p);
    CountPut(g1, from, Empty, p);
  }

  lemma {:induction false} CountRowAll(row: seq<Cell>, p: Cell -> bool)
    requires forall i :: 0 <= i < |row| ==> p(row[i])
    ensures CountRow(row, p) == |row|
  {
    if row != [] {
      CountRowAll(row[1..], p);
    }
  }

  lemma {:induction false} CountRowNone(row: seq<Cell>, p: Cell -> bool)
    requires forall i :: 0 <= i < |row| ==> !p(row[i])
    ensures CountRow(row, p) == 0
  {
    if row != [] {
      CountRowNone(row[1..], p);
    }
  }

  lemma CountFrom(g: Grid, k: nat, p: Cell -> bool)
    requires k < |g|
    ensures Count(g[k..], p) == CountRow(g[k], p) + Count(g[k + 1..], p)
  {
  }

  /** The count of an eight-row board is the sum of its per-row counts. */
  lemma CountEightRows(g: Grid, p: Cell -> bool)
    requires |g| == Size
    ensures Count(g, p) == CountRow(g[0], p) + CountRow(g[1], p) + CountRow(g[2], p) + CountRow(g[3], p)
                         + CountRow(g[4], p) + CountRow(g[5], p) + CountRow(g[6], p) + CountRow(g[7], p)
  {
    assert g[0..] == g;
    assert g[8..] == [];
    CountFrom(g, 0, p);
    CountFrom(g, 1, p);
    CountFrom(g, 2, p);
    CountFrom(g, 3, p);
    CountFrom(g, 4, p);
    CountFrom(g, 5, p);
    CountFrom(g, 6, p);
    CountFrom(g, 7, p);
  }

  /** A row of eight cells that `p` holds of everywhere, or nowhere. */
  lemma {:induction false} CountPieceRow(row: seq<Cell>, p: Cell -> bool, q: Cell -> bool)
    requires forall i :: 0 <= i < |row| ==> p(row[i]) && !q(row[i]) && Occupied(row[i])
    ensures CountRow(row, p) == |row| && CountRow(row, q) == 0 && CountRow(row, Occupied) == |row|
  {
    CountRowAll(row, p);
    CountRowNone(row, q);
    CountRowAll(row, Occupied);
  }

  lemma {:induction false} CountEmptyRow(row: seq<Cell>)
    requires forall i :: 0 <= i < |row| ==> row[i] == Empty
    ensures CountRow(row, IsBlackPiece) == 0 && CountRow(row, IsWhitePiece) == 0
    ensures CountRow(row, Occupied) == 0
  {
    CountRowNone(row, IsBlackPiece);
    CountRowNone(row, IsWhitePiece);
    CountRowNone(row, Occupied);
  }

  /** Any board laid out like the starting position (black pieces on rows 0-1,
      rows 2-5 empty, white pieces on rows 6-7) has sixteen pieces per side. */
  lemma LayoutPieceCounts(g: Grid)
    requires IsGrid(g)
    requires forall r, c :: 0 <= r < 2 && 0 <= c < Size ==> IsBlackPiece(g[r][c])
    requires forall r, c :: 2 <= r < 6 && 0 <= c < Size ==> g[r][c] == Empty
    requires forall r, c :: 6 <= r < 8 && 0 <= c < Size ==> IsWhitePiece(g[r][c])
    ensures Count(g, IsBlackPiece) == 16
    ensures Count(g, IsWhitePiece) == 16
    ensures Count(g, Occupied) == 32
  {
    CountEightRows(g, IsBlackPiece);
    CountEightRows(g, IsWhitePiece);
    CountEightRows(g, Occupied);
    CountPieceRow(g[0], IsBlackPiece, IsWhitePiece);
    CountPieceRow(g[1], IsBlackPiece, IsWhitePiece);
    CountEmptyRow(g[2]);
    CountEmptyRow(g[3]);
    CountEmptyRow(g[4]);
    CountEmptyRow(g[5]);
    CountPieceRow(g[6], IsWhitePiece, IsBlackPiece);
    CountPieceRow(g[7], IsWhitePiece, IsBlackPiece);
  }

  /** The starting position has sixteen pieces per side and thirty-two in all. */
  lemma InitialPieceCounts()
    ensures Count(InitialBoard(), IsBlackPiece) == 16
    ensures Count(InitialBoard(), IsWhitePiece) == 16
    ensures Count(InitialBoard(), Occupied) == 32
  {
    var g := InitialBoard();
    assert forall r, c :: 0 <= r < 2 && 0 <= c < Size ==> IsBlackPiece(g[r][c]) by {
      forall r, c | 0 <= r < 2 && 0 <= c < Size ensures IsBlackPiece(g[r][c]) {
        assert r == 0 || r == 1;
      }
    }
    assert forall r, c :: 6 <= r < 8 && 0 <= c < Size ==> IsWhitePiece(g[r][c]) by {
      forall r, c | 6 <= r < 8 && 0 <= c < Size ensures IsWhitePiece(g[r][c]) {
        assert r == 6 || r == 7;
      }
    }
    LayoutPieceCounts(g);
  }

  /** The colour the board draws a square in: light exactly when row + column is even. */
  predicate IsLightSquare(row: nat, col: nat) {
    (row + col) % 2 == 0
  }

  /** Orthogonal neighbours differ in colour, diagonal neighbours share it, and
      the bottom-right corner (7, 7) is light while (7, 0) is dark. */
  lemma SquareColours(row: nat, col: nat)
    ensures IsLightSquare(row, col) != IsLightSquare(row + 1, col)
    ensures IsLightSquare(row, col) != IsLightSquare(row, col + 1)
    ensures IsLightSquare(row, col) == IsLightSquare(row + 1, col + 1)
    ensures col > 0 ==> IsLightSquare(row, col) == IsLightSquare(row + 1, col - 1)
    ensures IsLightSquare(7, 7) && !IsLightSquare(7, 0)
  {
  }
}
