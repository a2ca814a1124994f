# Tic-tac-toe board engine

A Dafny model of the board engine behind the tic-tac-toe `Game` component in
`src/components/Game/Game.tsx`. The game state is a flat, row-major board
(`results`) of 3x3, 4x4 or 5x5 cells. Each cell is empty (`null`), X (`true`)
or O (`false`). The state also holds the side `size` and a `turn` flag that is
`true` when X is to move.

Two transitions replace the state:

- `reset(size)` starts an empty board;
- `makeTurn(index, turn)` writes a mark and passes the turn.

Three detectors report:

- the first complete row;
- the first complete column;
- the complete diagonal, where the main diagonal wins over the anti-diagonal.

The game is over when any detector reports something other than -1.

Files, one module each:

- `board.dfy` (`Board`): the cell type, `isFilled`, the JavaScript `slice` and
  `filter` the detectors use, and the row-major geometry of rows, columns and
  diagonals. It also proves that the slice is row `r` and that the
  `j % size == c` filter is column `c`.
- `detectors.dfy` (`Detectors`): the three detectors as methods with the
  loops of `Game.tsx`. Each is proved equal to a specification function. The module
  also holds `isOver`, and lemmas that say what each detector means on a full
  board.
- `play.dfy` (`Play`): properties of play. Marks alternate when each move uses
  the current turn. An empty board is never over. A move that ends the game
  completes a line through the cell just marked, filled with the mover's mark.
  This last fact is why the win message can name the winner from `turn` alone.
- `store.dfy` (`Store`): the state as a class `GameStore` with fields
  `results`, `size` and `turn`. `Reset` and `MakeTurn` reassign the fields,
  and `Evaluate` is the per-render evaluation.

Like the code, the model:

- has no draw detection;
- rejects no move and no size with an error;
- reports only the first complete row and the first complete column, not all
  complete lines.

## Model

| member | source | states |
|---|---|---|
| `Board.IsFilledIffUniform` | src/components/Game/Game.tsx:45-48 | the set test of `isFilled` (one distinct value, not `null`) holds exactly when the line is non-empty and every cell holds the same mark; an empty line is never filled |
| `Board.RowCellsAsLine` | src/components/Game/Game.tsx:52 | on a board of `size*size` cells, `slice(r*size, r*size+size)` is exactly the cells `r*size + k`, k in [0, size), that is row `r` |
| `Board.ColumnCellsAsLine` | src/components/Game/Game.tsx:62 | on a board of `size*size` cells, filtering the indices `j` with `j % size == c` yields exactly the cells `k*size + c` in row order, that is column `c` |
| `Board.MainDiagonalIndices` | src/components/Game/Game.tsx:75 | the main-diagonal indices `i*size + i` are `size` cells that all lie on the board |
| `Board.AntiDiagonalIndices` | src/components/Game/Game.tsx:76 | the anti-diagonal indices `i*size + size - i - 1` are `size` cells that all lie on the board |
| `Detectors.FirstFilled` | src/components/Game/Game.tsx:51-57 | first-match search: the result is -1 exactly when no line is filled; otherwise it is a filled line's index and no earlier line is filled |
| `Detectors.GetSelectedRowNumber` | src/components/Game/Game.tsx:50-58 | the loop returns the smallest row whose slice is filled, or -1 exactly when no row in [0, size) is filled, and equals the row specification |
| `Detectors.GetSelectedColNumber` | src/components/Game/Game.tsx:60-68 | the loop returns the smallest column whose filtered cells are filled, or -1 exactly when none is, and equals the column specification |
| `Detectors.GetSelectedDiagonalNumber` | src/components/Game/Game.tsx:70-91 | after copying both diagonals into fresh arrays the result is 0 exactly when the main diagonal holds one mark, 1 exactly when it does not and the anti-diagonal does, otherwise -1 |
| `Detectors.IsOver` | src/components/Game/Game.tsx:106-108 | `Math.max(row, col, diagonal) != -1` holds exactly when at least one detector reports something other than -1 |
| `Detectors.SelectedRowMeaning` | src/components/Game/Game.tsx:50-58 | on a full-size board the row detector is -1 exactly when no row holds one mark, and otherwise names the smallest row that does |
| `Detectors.SelectedColumnMeaning` | src/components/Game/Game.tsx:60-68 | on a full-size board the column detector is -1 exactly when no column holds one mark, and otherwise names the smallest column that does |
| `Detectors.SelectedDiagonalMeaning` | src/components/Game/Game.tsx:70-91 | the diagonal detector is in {-1, 0, 1}; it is 0 exactly when the main diagonal holds one mark, and 1 exactly when only the anti-diagonal does |
| `Detectors.IsOverMeaning` | src/components/Game/Game.tsx:102-108 | the game is over exactly when some row, some column, the main diagonal or the anti-diagonal holds one repeated mark |
| `Play.FreshBoardAlternates` | src/components/Game/Game.tsx:37-43 | an empty board with X to move satisfies the alternation invariant (as many X as O marks) |
| `Play.MoveKeepsAlternation` | src/components/Game/Game.tsx:26-35 | marking an empty cell with the current turn and flipping the turn keeps the invariant: X to move means equal counts, O to move means one more X |
| `Play.FreshBoardNotOver` | src/components/Game/Game.tsx:37-43 | the empty board of any size is not over |
| `Play.WinnerIsMover` | src/components/Game/Game.tsx:163-165 | if a game that was not over becomes over by one move, every line the detectors report passes through the cell just marked and holds the mover's mark, so the winner is the player opposite the new `turn` |
| `Play.TopRowWins` | src/components/Game/Game.tsx:50-58 | on a 3x3 board whose top row is all X, the row detector reports row 0 and the game is over |
| `Play.FullBoardWithoutLineIsNotOver` | src/components/Game/Game.tsx:102-108 | a full 3x3 board with no complete line (X O X / O X O / O X O) is not over: the game has no draw state |
| `Store.GameStore.constructor` | src/components/Game/Game.tsx:18-22 | the initial state is nine empty cells, size 3, X to move; it has `size*size` cells, is not over and satisfies the alternation invariant |
| `Store.GameStore.Reset` | src/components/Game/Game.tsx:37-43 | the new state is `size*size` empty cells of the requested size with X to move, whatever came before; it keeps `|results| == size*size`, is not over and alternates |
| `Store.GameStore.MakeTurn` | src/components/Game/Game.tsx:26-35 | the new board is the old one with cell `index` set to the given turn's mark and every other cell unchanged; the size is unchanged and the new turn is the negation of the given one; `|results| == size*size` and, for a move with the current turn, the alternation invariant are preserved |
| `Store.GameStore.Evaluate` | src/components/Game/Game.tsx:102-108 | the three detector results and `isOver` computed from the current state equal their specifications, and `isOver` holds exactly when some detector is not -1 |

## Left out

- The React rendering in `Game`: the size `<select>` and its `parseInt`, the grid and cell CSS classes, the "cell is selected" highlighting, the win message text and the Rematch button. These are display code. The win message's choice of winner is justified by `Play.WinnerIsMover`.
- The `@yobta/stores` container (`createStore`, `last`, `next`, `useStore`) and its subscription, notification and session persistence. It is a foreign library; its role is played by the fields of `Store.GameStore`, which the transitions reassign.
- The `useEffect` repair that resets a board whose length is not `size*size`. It is component lifecycle code. Every state the transitions produce keeps `|results| == size*size` (`Store.GameStore.Valid`), so the repair never fires on them.
- `src/app/page.tsx`: page metadata and layout only.
- `Detectors.GetSelectedDiagonalNumber` requires `|results| == size * size`: on a shorter board JavaScript reads `undefined` past the end, a fourth cell value that is not modelled. The row and column detectors are modelled for boards of any length, with the clamping of `slice` and the index test of `filter`.
- `Detectors.IsOver` requires `|results| == size * size` for the same reason, since it uses the diagonal detector.
- `Store.GameStore.MakeTurn` requires an empty target cell and a game that is not over. The function itself checks neither. Its only caller, the board view, disables a cell once it holds a mark or the game is over (`pointer-events-none`, src/components/Game/Game.tsx:149). An occupied cell or a finished game is therefore never passed to it.
- The detectors take `size` as a natural number. In `Game.tsx` it is a JavaScript number; negative or fractional sizes never reach the detectors and are not modelled.
- Draw detection, move validation errors and size validation errors are absent from `Game.tsx`, so the model has none of them. A full board with no complete line is simply not over (`Play.FullBoardWithoutLineIsNotOver`); no cell of it accepts a move.
