/** Properties of play: marks alternate between X and O when every move is
    made with the current turn, an empty board is never over, and a move that
    ends the game completes a line through the cell just marked, filled with
    the mover's mark. */
module Play {
  import opened Board
  import opened Detectors

  /** The number of cells holding `m`. */
  ghost function Count(cells: seq<Cell>, m: Cell): nat {
    if cells == [] then 0 else (if cells[0] == m then 1 else 0) + Count(cells[1..], m)
  }

  /** X moves first and the players alternate: with X to move both have placed
      as many marks, with O to move X has placed one more. */
  ghost predicate Alternates(results: seq<Cell>, turn: bool) {
    var xs, os := Count(results, Mark(true)), Count(results, Mark(false));
    if turn then xs == os else xs == os + 1
  }

  /** Writing `v` over cell `i` trades one occurrence of the old value for one of `v`. */
  lemma {:induction false} CountUpdate(cells: seq<Cell>, i: nat, v: Cell, m: Cell)
    requires i < |cells|
    ensures Count(cells[i := v], m)
            == Count(cells, m) - (if cells[i] == m then 1 else 0) + (if v == m then 1 else 0)
  {
    if i > 0 {
      CountUpdate(cells[1..], i - 1, v, m);
      assert cells[i := v][1..] == cells[1..][i - 1 := v];
    }
  }

  /** An all-empty board holds no mark. */
  lemma {:induction false} CountEmpty(n: nat, m: Cell)
    requires m != Empty
    ensures Count(seq(n, _ => Empty), m) == 0
  {
    if n > 0 {
      CountEmpty(n - 1, m);
      assert seq(n, _ => Empty)[1..] == seq(n - 1, _ => Empty);
    }
  }

  /** A fresh board with X to move satisfies the alternation invariant. */
  lemma FreshBoardAlternates(n: nat)
    ensures Alternates(seq(n, _ => Empty), true)
  {
    CountEmpty(n, Mark(true));
    CountEmpty(n, Mark(false));
  }

  /** Marking an empty cell with the current turn and flipping the turn keeps
      the alternation invariant. */
  lemma MoveKeepsAlternation(results: seq<Cell>, index: nat, turn: bool)
    requires index < |results| && results[index] == Empty
    requires Alternates(results, turn)
    ensures Alternates(results[index := Mark(turn)], !turn)
  {
    CountUpdate(results, index, Mark(turn), Mark(true));
    CountUpdate(results, index, Mark(turn), Mark(false));
  }

  /** A board of empty cells is not over: no line holds a mark. */
  lemma FreshBoardNotOver(size: nat)
    ensures !IsOver(size, seq(size * size, _ => Empty))
  {
    var board := seq(size * size, _ => Empty);
    IsOverMeaning(size, board);
    if size > 0 {
      assert Line(board, MainDiagonalIndices(size))[0] == Empty;
      assert Line(board, AntiDiagonalIndices(size))[0] == Empty;
      forall r | 0 <= r < size
        ensures !Uniform(Line(board, RowIndices(size, r)))
        ensures !Uniform(Line(board, ColumnIndices(size, r)))
      {
        assert Line(board, RowIndices(size, r))[0] == Empty;
        assert Line(board, ColumnIndices(size, r))[0] == Empty;
      }
    }
  }

  /** The line `idxs` is complete on `results`, passes through `index`, and
      every cell of it holds `m`. */
  predicate CompletedThrough(results: seq<Cell>, idxs: seq<nat>, index: nat, m: Cell)
    requires OnBoard(|results|, idxs)
  {
    index in idxs && forall k | 0 <= k < |idxs| :: results[idxs[k]] == m
  }

  /** A line that one write completes passes through the written cell and
      holds the written value throughout. */
  lemma LineThroughMove(results: seq<Cell>, idxs: seq<nat>, index: nat, m: Cell)
    requires OnBoard(|results|, idxs) && index < |results|
    requires !Uniform(Line(results, idxs))
    requires Uniform(Line(results[index := m], idxs))
    ensures CompletedThrough(results[index := m], idxs, index, m)
  {
  }

  /** When a move ends a game that was not over, every line the detectors
      report runs through the cell just marked and carries the mover's mark. */
  lemma WinnerIsMover(size: nat, results: seq<Cell>, index: nat, turn: bool)
    requires |results| == size * size && index < |results|
    requires !IsOver(size, results)
    ensures var after := results[index := Mark(turn)];
            var r, c, d := SelectedRow(size, after), SelectedColumn(size, after), SelectedDiagonal(size, after);
            && (0 <= r ==> CompletedThrough(after, RowIndices(size, r), index, Mark(turn)))
            && (0 <= c ==> CompletedThrough(after, ColumnIndices(size, c), index, Mark(turn)))
            && (d == 0 ==> CompletedThrough(after, MainDiagonalIndices(size), index, Mark(turn)))
            && (d == 1 ==> CompletedThrough(after, AntiDiagonalIndices(size), index, Mark(turn)))
  {
    var after := results[index := Mark(turn)];
    SelectedRowMeaning(size, results);
    SelectedColumnMeaning(size, results);
    SelectedDiagonalMeaning(size, results);
    SelectedRowMeaning(size, after);
    SelectedColumnMeaning(size, after);
    SelectedDiagonalMeaning(size, after);
    var r, c, d := SelectedRow(size, after), SelectedColumn(size, after), SelectedDiagonal(size, after);
    if 0 <= r {
      LineThroughMove(results, RowIndices(size, r), index, Mark(turn));
    }
    if 0 <= c {
      LineThroughMove(results, ColumnIndices(size, c), index, Mark(turn));
    }
    if d == 0 {
      LineThroughMove(results, MainDiagonalIndices(size), index, Mark(turn));
    }
    if d == 1 {
      LineThroughMove(results, AntiDiagonalIndices(size), index, Mark(turn));
    }
  }

  const X := Mark(true)
  const O := Mark(false)

  /** A 3x3 board whose top row is all X is over, and the row detector reports row 0. */
  lemma TopRowWins()
    ensures var board := [X, X, X, Empty, Empty, Empty, Empty, Empty, Empty];
            SelectedRow(3, board) == 0 && IsOver(3, board)
  {
    var board := [X, X, X, Empty, Empty, Empty, Empty, Empty, Empty];
    SelectedRowMeaning(3, board);
    assert Line(board, RowIndices(3, 0)) == [X, X, X];
  }

  /** A full 3x3 board on which no row, column or diagonal holds one mark. */
  const FullBoard := [X, O, X, O, X, O, O, X, O]

  lemma FullBoardRowsAndColumns(r: nat)
    requires r < 3
    ensures !Uniform(Line(FullBoard, RowIndices(3, r)))
    ensures !Uniform(Line(FullBoard, ColumnIndices(3, r)))
  {
    var row, col := Line(FullBoard, RowIndices(3, r)), Line(FullBoard, ColumnIndices(3, r));
    // Rows X O X, O X O, O X O and columns X O O, O X X, X O O.
    if r == 0 {
      assert row[1] != row[0] && col[1] != col[0];
    } else if r == 1 {
      assert row[1] != row[0] && col[1] != col[0];
    } else {
      assert row[1] != row[0] && col[1] != col[0];
    }
  }

  /** The full board above is not over; the game has no separate notion of a
      draw, so a full board without a complete line simply accepts no move. */
  lemma FullBoardWithoutLineIsNotOver()
    ensures !IsOver(3, FullBoard)
  {
    forall r | 0 <= r < 3
      ensures !Uniform(Line(FullBoard, RowIndices(3, r)))
      ensures !Uniform(Line(FullBoard, ColumnIndices(3, r)))
    {
      FullBoardRowsAndColumns(r);
    }
    assert Line(FullBoard, MainDiagonalIndices(3))[2] == O;
    assert Line(FullBoard, AntiDiagonalIndices(3))[2] == O;
    IsOverMeaning(3, FullBoard);
  }
}
