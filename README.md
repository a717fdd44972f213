# Chess board click handler — a Dafny model

This project models the chess board component of the Chess-Game web app. The
component holds two things: an 8×8 board of one-character piece codes, with
lower case for black, upper case for white and the empty string for an empty
square, and an optional selected square. A click handler updates them:

- With nothing selected, a click on an empty square does nothing.
- With nothing selected, a click on an occupied square selects that square.
- With a square selected, a click on any square copies the selected square's
  content onto the clicked square, blanks the selected square and clears the
  selection.

The handler consults no rule of chess. It checks no piece movement and no side
to move, and it blocks no capture of a piece of the mover's own colour.
Clicking the selected square a second time erases its piece.

The model has two modules:

- `Board` (board.dfy) treats the board as a value (`Grid`, a sequence of rows
  of `Cell = string`). It holds the starting position, the copy-then-blank
  `Move`, piece counts and the square-colour rule.
- `Chessboard` (chessboard.dfy) holds the click state machine. `Click` is a
  pure specification over `ClickState`. The class `Chessboard` keeps the board
  the way the component does: an outer sequence of row arrays. The handler
  copies the outer sequence and writes into the shared rows in place.
  `HandleSquareClick` is proved to leave exactly the state `Click` describes,
  with the same row arrays as before.

A selection may be any occupied square, of either colour, and every destination
is accepted.

## Model

| member | source | states |
|---|---|---|
| `Board.InitialBoard` | src/components/Chessboard.js:3-12 | The starting board is 8×8. Rows 0-1 hold black pieces, with pawns on row 1. Rows 2-5 are empty. Rows 6-7 hold white pieces, with pawns on row 6. The kings are on (0,4) and (7,4), the queens on (0,3) and (7,3), and the rooks in the four corners. |
| `Board.LayoutPieceCounts` | src/components/Chessboard.js:3-12 | Any board laid out this way (black on rows 0-1, empty rows 2-5, white on rows 6-7) has 16 black pieces, 16 white pieces and 32 occupied squares. |
| `Board.InitialPieceCounts` | src/components/Chessboard.js:3-12 | The starting position has 16 pieces per side and 32 in all. |
| `Board.Put` | src/components/Chessboard.js:26-27 | A single cell assignment changes the written square to the new value, leaves every other square as it was and keeps the board 8×8. |
| `Board.CountPut` | src/components/Chessboard.js:26-27 | For any class of cells, overwriting one square changes the class's count by exactly the old content leaving and the new content arriving. |
| `Board.Move` | src/components/Chessboard.js:25-27 | After the move the origin is empty. A destination other than the origin holds the origin's old content, whatever it held before. All other squares are unchanged. |
| `Board.MoveCount` | src/components/Chessboard.js:25-27 | For any class of cells, a move loses whatever the destination held and gains one empty square. No piece is created, and the moving piece is lost only when the destination is the origin. |
| `Board.SquareColours` | src/components/Chessboard.js:39 | A square is light exactly when row + column is even. So orthogonal neighbours differ in colour, neighbours along either diagonal share it, (7,7) is light and (7,0) is dark. |
| `Chessboard.Click` | src/components/Chessboard.js:23-33 | Every click keeps the state well formed: the board stays 8×8, and any selected square is on the board and holds a piece. |
| `Chessboard.ClickIdleOnEmpty` | src/components/Chessboard.js:24-32 | With nothing selected, clicking an empty square leaves board and selection unchanged, and doing it twice does too. |
| `Chessboard.ClickIdleSelects` | src/components/Chessboard.js:30-31 | With nothing selected, clicking an occupied square selects exactly that square and leaves the board unchanged. |
| `Chessboard.ClickMoves` | src/components/Chessboard.js:24-29 | With a square selected, every target is accepted. The selection is cleared and the origin is empty. A different target holds the origin's old piece whatever it held before. Every other square keeps its content. |
| `Chessboard.ClickSelectedSquareErases` | src/components/Chessboard.js:26-29 | Clicking the selected square again leaves it empty, clears the selection and reduces the number of occupied squares by one. |
| `Chessboard.ClickPieceCount` | src/components/Chessboard.js:24-28 | A click never adds a piece. The number of occupied squares drops by one exactly when a square was selected and the clicked square was occupied, and otherwise stays the same. |
| `Chessboard.ClickCapturesAnyPiece` | src/components/Chessboard.js:24-28 | There is no colour check. For any class of pieces (white, black, one kind), a move loses one piece of that class exactly when the target held one, including a piece of the mover's own colour. |
| `Chessboard.Chessboard.constructor` | src/components/Chessboard.js:20-21 | A new component holds the starting position in eight distinct fresh row arrays and has nothing selected. |
| `Chessboard.Chessboard.HandleSquareClick` | src/components/Chessboard.js:23-33 | The new board and selection are exactly what `Click` gives for the old ones. The row arrays are the same objects as before, so the update is in place, and the class invariant (eight distinct rows of eight cells, a well-formed state) is kept. |

## Left out

- Rendering (src/components/Chessboard.js:35-63) is not modelled: the JSX grid, the CSS class strings, the selected-square ring (lines 40-42), hover and transition styling, and the `onClick` wiring. Only the colour rule of line 39 is modelled, as `Board.IsLightSquare`.
- The `pieceSymbols` glyph table (lines 14-17) is display text and is not modelled. Its keys are used only to name the black and white piece codes.
- React's `useState` hooks and re-rendering (lines 20-21, 28-29) are not modelled. `board` and `selectedPiece` are plain fields that the handler assigns.
- The constructor allocates fresh row arrays. In the source, `useState(initialBoard)` starts from the module constant's own rows, so moves also mutate that constant, and a later mount of the component would start from the mutated position. This aliasing with the module constant is not modelled.
- `HandleSquareClick` requires the clicked square to be on the board. Its only caller is the render loop, which passes row and column indices 0-7.
- src/App.js is page composition with no logic, and it is not modelled.
- Move legality, turn tracking, castling, en passant, promotion, winner detection and reset are not modelled. None of them exists in the component's code.
