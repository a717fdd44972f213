/** The chess board component's click handling: a select-then-move state
    machine over the board and an optional selected square. The first click on
    an occupied square selects it; the next click anywhere copies the selected
    square's content there, blanks the selected square and clears the
    selection. No rule of chess is consulted. */
module Chessboard {
  import opened Board

  datatype Option<T> = None | Some(value: T)

  /** The component's state as a value: the board and the selected square, if any. */
  datatype ClickState = ClickState(board: Grid, selectedPiece: Option<Square>)

  /** The invariant the handler keeps: a selected square is on the board and holds a piece. */
  predicate WellFormed(s: ClickState) {
    && IsGrid(s.board)
    && (s.selectedPiece.Some? ==> OnBoard(s.selectedPiece.value) && Occupied(At(s.board, s.selectedPiece.value)))
  }

  /** The state the handler leaves after a click on `target`. */
  function Click(s: ClickState, target: Square): (t: ClickState)
    requires WellFormed(s) && OnBoard(target)
    ensures WellFormed(t)
  {
    match s.selectedPiece
    case Some(from) => ClickState(Move(s.board, from, target), None)
    case None => if Occupied(At(s.board, target)) then ClickState(s.board, Some(target)) else s
  }

  /** Idle, empty square clicked: nothing changes, however often it is clicked. */
  lemma ClickIdleOnEmpty(s: ClickState, target: Square)
    requires WellFormed(s) && OnBoard(target)
    requires s.selectedPiece == None && !Occupied(At(s.board, target))
    ensures Click(s, target) == s
    ensures Click(Click(s, target), target) == s
  {
  }

  /** Idle, occupied square clicked: exactly that square is selected and the board is untouched. */
  lemma ClickIdleSelects(s: ClickState, target: Square)
    requires WellFormed(s) && OnBoard(target)
    requires s.selectedPiece == None && Occupied(At(s.board, target))
    ensures Click(s, target).selectedPiece == Some(target)
    ensures Click(s, target).board == s.board
  {
  }

  /** With a square selected, every target is accepted: the selected content lands on
      the target whatever stood there, the origin is blanked, the selection is cleared,
      and every other square keeps its content. */
  lemma ClickMoves(s: ClickState, target: Square)
    requires WellFormed(s) && OnBoard(target) && s.selectedPiece.Some?
    ensures var t, from := Click(s, target), s.selectedPiece.value;
      && t.selectedPiece == None
      && At(t.board, from) == Empty
      && (target != from ==> At(t.board, target) == At(s.board, from))
      && forall q :: OnBoard(q) && q != from && q != target ==> At(t.board, q) == At(s.board, q)
  {
  }

  /** Clicking the selected square again removes its piece: the copy onto the
      target is undone by the blanking of the origin. */
  lemma ClickSelectedSquareErases(s: ClickState, target: Square)
    requires WellFormed(s) && OnBoard(target) && s.selectedPiece == Some(target)
    ensures At(Click(s, target).board, target) == Empty
    ensures Click(s, target).selectedPiece == None
    ensures Count(Click(s, target).board, Occupied) == Count(s.board, Occupied) - 1
  {
    MoveCount(s.board, target, target, Occupied);
  }

  /** A click removes at most one piece and never adds one: the number of
      occupied squares goes down by one exactly when a square was selected and
      the clicked square was occupied. */
  lemma ClickPieceCount(s: ClickState, target: Square)
    requires WellFormed(s) && OnBoard(target)
    ensures Count(Click(s, target).board, Occupied)
         == Count(s.board, Occupied) - Ind(s.selectedPiece.Some? && Occupied(At(s.board, target)))
  {
    if s.selectedPiece.Some? {
      MoveCount(s.board, s.selectedPiece.value, target, Occupied);
    }
  }

  /** No colour check: for any class of pieces `p` (the white ones, the black ones,
      one kind), a move loses one member of `p` exactly when the target held one,
      including a piece of the mover's own colour. */
  lemma ClickCapturesAnyPiece(s: ClickState, target: Square, p: Cell -> bool)
    requires WellFormed(s) && OnBoard(target) && s.selectedPiece.Some? && !p(Empty)
    ensures Count(Click(s, target).board, p) == Count(s.board, p) - Ind(p(At(s.board, target)))
  {
    MoveCount(s.board, s.selectedPiece.value, target, p);
  }

  /** The component itself: the board is held as a sequence of row arrays; a move
      writes into the shared rows in place and reassigns a copy of the outer
      sequence, as the handler does with `[...board]`. */
  class Chessboard {
    var board: seq<array<Cell>>
    var selectedPiece: Option<Square>

    /** Eight distinct rows of eight cells, and a state the handler keeps well formed. */
    ghost predicate Valid()
      reads this, board
    {
      && |board| == Size
      && (forall r :: 0 <= r < Size ==> board[r].Length == Size)
      && (forall r, r' :: 0 <= r < r' < Size ==> board[r] != board[r'])
      && WellFormed(State())
    }

    /** The board's contents as a value. */
    ghost function Cells(): Grid
      reads this, board
    {
      seq(|board|, r requires 0 <= r < |board| reads this, board => board[r][..])
    }

    ghost function State(): ClickState
      reads this, board
    {
      ClickState(Cells(), selectedPiece)
    }

    /** A new component shows the starting position with nothing selected. */
    constructor ()
      ensures Valid()
      ensures State() == ClickState(InitialBoard(), None)
      ensures forall r :: 0 <= r < |board| ==> fresh(board[r])
    {
      var g := InitialBoard();
      var rows := NewRows(g);
      board := rows;
      selectedPiece := None;
      new;
      assert Cells() == g;
    }

    /** The click handler. The new state is the one `Click` describes, and the rows
        are the same arrays as before: the update happens in place. */
    method HandleSquareClick(row: int, col: int)
      requires Valid() && OnBoard(Square(row, col))
      modifies this, board
      ensures Valid()
      ensures board == old(board)
      ensures State() == Click(old(State()), Square(row, col))
    {
      if selectedPiece.Some? {
        var from := selectedPiece.value;
        ghost var before := Cells();
        var newBoard := board;
        newBoard[row][col] := newBoard[from.row][from.col];
        newBoard[from.row][from.col] := Empty;
        board := newBoard;
        selectedPiece := None;
        assert Cells() == Move(before, from, Square(row, col)) by {
          var after := Move(before, from, Square(row, col));
          forall r | 0 <= r < Size ensures Cells()[r] == after[r] {
            forall c | 0 <= c < Size ensures Cells()[r][c] == after[r][c] {
              assert At(after, Square(r, c)) == after[r][c];
            }
          }
        }
      } else if Occupied(board[row][col]) {
        selectedPiece := Some(Square(row, col));
      }
    }
  }

  /** A fresh row array holding `cells`. */
  method NewRow(cells: seq<Cell>) returns (a: array<Cell>)
    ensures fresh(a) && a[..] == cells
  {
    a := new Cell[|cells|](i requires 0 <= i < |cells| => cells[i]);
  }

  /** Fresh, pairwise distinct row arrays holding the rows of `g`. */
  method NewRows(g: Grid) returns (rows: seq<array<Cell>>)
    ensures |rows| == |g|
    ensures forall r :: 0 <= r < |rows| ==> fresh(rows[r]) && rows[r][..] == g[r]
    ensures forall r, r' :: 0 <= r < r' < |rows| ==> rows[r] != rows[r']
    decreases |g|
  {
    if g == [] {
      rows := [];
    } else {
      var first := NewRow(g[0]);
      var rest := NewRows(g[1..]);
      rows := [first] + rest;
    }
  }
}
