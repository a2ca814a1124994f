/** The game state `{ results, size, turn }` and its two transitions. The game
    keeps the state in a reactive store and replaces it whole on each
    transition; here it is an object whose fields the transitions reassign. */
module Store {
  import opened Board
  import opened Detectors
  import opened Play

  class GameStore {
    /** The flat row-major board. */
    var results: seq<Cell>
    /** The side of the board. */
    var size: Size
    /** `true` when X is to move. */
    var turn: bool

    /** Every state the transitions produce has `size * size` cells. */
    ghost predicate Valid()
      reads this
    {
      |results| == size * size
    }

    /** `initialState`: an empty 3x3 board with X to move. */
    constructor ()
      ensures Valid()
      ensures results == seq(9, _ => Empty) && size == 3 && turn
      ensures !IsOver(size, results) && Alternates(results, turn)
    {
      results := seq(9, _ => Empty);
      size := 3;
      turn := true;
      FreshBoardNotOver(3);
      FreshBoardAlternates(9);
    }

    /** `reset(size)`: a fresh empty board of the given size, X to move. The
        previous board is discarded whatever its size. */
    method Reset(size: Size)
      modifies this
      ensures Valid()
      ensures this.results == seq(size * size, _ => Empty) && this.size == size && this.turn
      ensures !IsOver(this.size, this.results) && Alternates(this.results, this.turn)
    {
      this.results := seq(size * size, _ => Empty);
      this.size := size;
      this.turn := true;
      FreshBoardNotOver(size);
      FreshBoardAlternates(size * size);
    }

    /** `makeTurn(index, turn)`: a copy of the board with `turn`'s mark at
        `index`, the same size, and the other player to move. `makeTurn` does
        not check the cell or the game; its only caller, the board view, makes
        a cell unclickable once it is marked or the game is over, and passes
        the current turn. */
    method MakeTurn(index: nat, turn: bool)
      requires Valid() && index < |results|
      requires results[index] == Empty && !IsOver(size, results)
      modifies this
      ensures Valid()
      ensures results == old(results)[index := Mark(turn)]
      ensures size == old(size) && this.turn == !turn
      ensures old(Alternates(results, this.turn)) && turn == old(this.turn)
              ==> Alternates(results, this.turn)
    {
      var next := this.results;
      next := next[index := Mark(turn)];
      if Alternates(this.results, this.turn) && turn == this.turn {
        MoveKeepsAlternation(this.results, index, turn);
      }
      this.results := next;
      this.turn := !turn;
    }

    /** The evaluation the board view makes on every render: the three
        detectors, and `isOver` as their maximum compared with -1. */
    method Evaluate() returns (row: int, column: int, diagonal: int, over: bool)
      requires Valid()
      ensures row == SelectedRow(size, results)
      ensures column == SelectedColumn(size, results)
      ensures diagonal == SelectedDiagonal(size, results)
      ensures over == IsOver(size, results)
      ensures over <==> (row != -1 || column != -1 || diagonal != -1)
    {
      row := GetSelectedRowNumber(size, results);
      column := GetSelectedColNumber(size, results);
      diagonal := GetSelectedDiagonalNumber(size, results);
      over := Max3(row, column, diagonal) != -1;
    }
  }
}
