/** The line detectors of the game: the first complete row, the first complete
    column, the complete diagonal, and whether the game is over. Each detector
    is a method with the loop of `Game.tsx`, proved equal to a specification function. */
module Detectors {
  import opened Board

  /** The index of the first filled line, or -1 when none is filled. */
  function FirstFilled(lines: seq<seq<Cell>>): (r: int)
    ensures -1 <= r < |lines|
    ensures r == -1 <==> forall k | 0 <= k < |lines| :: !IsFilled(lines[k])
    ensures 0 <= r ==> IsFilled(lines[r]) && forall k | 0 <= k < r :: !IsFilled(lines[k])
  {
    if |lines| == 0 then -1
    else if IsFilled(lines[0]) then 0
    else
      var k := FirstFilled(lines[1..]);
      if k == -1 then -1 else k + 1
  }

  /** The lines the row detector tests, one per row index in [0, size). */
  function Rows(size: nat, results: seq<Cell>): seq<seq<Cell>> {
    seq(size, r requires 0 <= r => RowCells(results, size, r))
  }

  /** The lines the column detector tests, one per column index in [0, size). */
  function Columns(size: nat, results: seq<Cell>): seq<seq<Cell>> {
    seq(size, c requires 0 <= c < size => ColumnCells(results, size, c))
  }

  /** What `getSelectedRowNumber` returns. */
  function SelectedRow(size: nat, results: seq<Cell>): int {
    FirstFilled(Rows(size, results))
  }

  /** What `getSelectedColNumber` returns. */
  function SelectedColumn(size: nat, results: seq<Cell>): int {
    FirstFilled(Columns(size, results))
  }

  /** What `getSelectedDiagonalNumber` returns: 0 for the main diagonal, which
      is tested first, 1 for the anti-diagonal, -1 for neither. */
  function SelectedDiagonal(size: nat, results: seq<Cell>): int
    requires |results| == size * size
  {
    if IsFilled(Line(results, MainDiagonalIndices(size))) then 0
    else if IsFilled(Line(results, AntiDiagonalIndices(size))) then 1
    else -1
  }

  /** `Math.max(a, b, c)` on integers. */
  function Max3(a: int, b: int, c: int): int {
    if a >= b && a >= c then a else if b >= c then b else c
  }

  /** `isOver`: the largest of the three detector results is not -1. */
  function IsOver(size: nat, results: seq<Cell>): (over: bool)
    requires |results| == size * size
    ensures over <==> (SelectedRow(size, results) != -1
                       || SelectedColumn(size, results) != -1
                       || SelectedDiagonal(size, results) != -1)
  {
    Max3(SelectedRow(size, results), SelectedColumn(size, results), SelectedDiagonal(size, results)) != -1
  }

  /** `getSelectedRowNumber`: scans rows in order and returns the first whose
      slice is filled, or -1. */
  method GetSelectedRowNumber(size: nat, results: seq<Cell>) returns (r: int)
    ensures r == SelectedRow(size, results)
    ensures -1 <= r < size
    ensures r == -1 <==> forall k | 0 <= k < size :: !IsFilled(RowCells(results, size, k))
    ensures 0 <= r ==> IsFilled(RowCells(results, size, r))
                       && forall k | 0 <= k < r :: !IsFilled(RowCells(results, size, k))
  {
    for i := 0 to size
      invariant forall k | 0 <= k < i :: !IsFilled(RowCells(results, size, k))
    {
      var values := Slice(results, i * size, i * size + size);
      if IsFilled(values) {
        assert Rows(size, results)[i] == values;
        return i;
      }
    }
    return -1;
  }

  /** `getSelectedColNumber`: scans columns in order and returns the first
      whose filtered cells are filled, or -1. */
  method GetSelectedColNumber(size: nat, results: seq<Cell>) returns (r: int)
    ensures r == SelectedColumn(size, results)
    ensures -1 <= r < size
    ensures r == -1 <==> forall k | 0 <= k < size :: !IsFilled(ColumnCells(results, size, k))
    ensures 0 <= r ==> IsFilled(ColumnCells(results, size, r))
                       && forall k | 0 <= k < r :: !IsFilled(ColumnCells(results, size, k))
  {
    for i := 0 to size
      invariant forall k | 0 <= k < i :: !IsFilled(ColumnCells(results, size, k))
    {
      var values := ColumnCells(results, size, i);
      if IsFilled(values) {
        assert Columns(size, results)[i] == values;
        return i;
      }
    }
    return -1;
  }

  /** `getSelectedDiagonalNumber`: copies both diagonals into fresh arrays in
      one loop, then tests the main diagonal before the anti-diagonal. */
  method GetSelectedDiagonalNumber(size: nat, results: seq<Cell>) returns (r: int)
    requires |results| == size * size
    ensures r == SelectedDiagonal(size, results)
    ensures r == 0 || r == 1 || r == -1
    ensures r == 0 <==> Uniform(Line(results, MainDiagonalIndices(size)))
    ensures r == 1 <==> !Uniform(Line(results, MainDiagonalIndices(size)))
                        && Uniform(Line(results, AntiDiagonalIndices(size)))
  {
    ghost var main := Line(results, MainDiagonalIndices(size));
    ghost var anti := Line(results, AntiDiagonalIndices(size));
    // `diagonal1` starts filled with `null`, and `diagonal2` is a copy of it.
    var diagonal1 := new Cell[size](_ => Empty);
    var diagonal2 := new Cell[size](_ => Empty);
    for i := 0 to size
      invariant forall k | 0 <= k < i :: diagonal1[k] == main[k]
      invariant forall k | 0 <= k < i :: diagonal2[k] == anti[k]
    {
      assert MainDiagonalIndices(size)[i] == i * size + i;
      assert AntiDiagonalIndices(size)[i] == i * size + size - i - 1;
      var v1 := results[i * size + i];
      var v2 := results[i * size + size - i - 1];
      diagonal1[i] := v1;
      diagonal2[i] := v2;
    }
    assert diagonal1[..] == main;
    assert diagonal2[..] == anti;
    IsFilledIffUniform(main);
    IsFilledIffUniform(anti);
    if IsFilled(diagonal1[..]) {
      return 0;
    }
    if IsFilled(diagonal2[..]) {
      return 1;
    }
    return -1;
  }

  // On a full board the detectors mean what the row-major geometry says.

  /** The row detector reports the first row of one repeated mark, or -1 when
      there is none. */
  lemma SelectedRowMeaning(size: nat, results: seq<Cell>)
    requires |results| == size * size
    ensures -1 <= SelectedRow(size, results) < size
    ensures SelectedRow(size, results) == -1
            <==> forall k | 0 <= k < size :: !Uniform(Line(results, RowIndices(size, k)))
    ensures var r := SelectedRow(size, results);
            0 <= r ==> Uniform(Line(results, RowIndices(size, r)))
                       && forall k | 0 <= k < r :: !Uniform(Line(results, RowIndices(size, k)))
  {
    forall k | 0 <= k < size
      ensures IsFilled(Rows(size, results)[k]) <==> Uniform(Line(results, RowIndices(size, k)))
    {
      RowCellsAsLine(results, size, k);
      IsFilledIffUniform(Rows(size, results)[k]);
    }
  }

  /** The column detector reports the first column of one repeated mark, or -1
      when there is none. */
  lemma SelectedColumnMeaning(size: nat, results: seq<Cell>)
    requires |results| == size * size
    ensures -1 <= SelectedColumn(size, results) < size
    ensures SelectedColumn(size, results) == -1
            <==> forall k | 0 <= k < size :: !Uniform(Line(results, ColumnIndices(size, k)))
    ensures var c := SelectedColumn(size, results);
            0 <= c ==> Uniform(Line(results, ColumnIndices(size, c)))
                       && forall k | 0 <= k < c :: !Uniform(Line(results, ColumnIndices(size, k)))
  {
    forall k | 0 <= k < size
      ensures IsFilled(Columns(size, results)[k]) <==> Uniform(Line(results, ColumnIndices(size, k)))
    {
      ColumnCellsAsLine(results, size, k);
      IsFilledIffUniform(Columns(size, results)[k]);
    }
  }

  /** The diagonal detector reports 0 when the main diagonal holds one repeated
      mark, otherwise 1 when the anti-diagonal does, otherwise -1. */
  lemma SelectedDiagonalMeaning(size: nat, results: seq<Cell>)
    requires |results| == size * size
    ensures var d := SelectedDiagonal(size, results);
            && (d == 0 || d == 1 || d == -1)
            && (d == 0 <==> Uniform(Line(results, MainDiagonalIndices(size))))
            && (d == 1 <==> !Uniform(Line(results, MainDiagonalIndices(size)))
                            && Uniform(Line(results, AntiDiagonalIndices(size))))
  {
    IsFilledIffUniform(Line(results, MainDiagonalIndices(size)));
    IsFilledIffUniform(Line(results, AntiDiagonalIndices(size)));
  }

  /** `isOver` holds exactly when some row, some column or one of the two
      diagonals holds one repeated mark. */
  lemma IsOverMeaning(size: nat, results: seq<Cell>)
    requires |results| == size * size
    ensures IsOver(size, results)
            <==> ((exists r | 0 <= r < size :: Uniform(Line(results, RowIndices(size, r))))
                  || (exists c | 0 <= c < size :: Uniform(Line(results, ColumnIndices(size, c))))
                  || Uniform(Line(results, MainDiagonalIndices(size)))
                  || Uniform(Line(results, AntiDiagonalIndices(size))))
  {
    SelectedRowMeaning(size, results);
    SelectedColumnMeaning(size, results);
    SelectedDiagonalMeaning(size, results);
  }
}
