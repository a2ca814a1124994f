/** The board of the game: cells, the `isFilled` line test and the row-major
    geometry of rows, columns and diagonals on a flat board of size*size cells. */
module Board {

  /** A cell of the flat board. `Game.tsx` stores `null` for an empty cell and
      a boolean for a mark: `true` is X, `false` is O. */
  datatype Cell = Empty | Mark(isX: bool)

  /** The board sizes the game offers: 3x3, 4x4 and 5x5. */
  type Size = s: nat | 3 <= s <= 5 witness 3

  /** Reference meaning of a completed line: it has cells, its first cell holds
      a mark, and every cell holds that same mark. */
  predicate Uniform(xs: seq<Cell>) {
    |xs| > 0 && xs[0] != Empty && forall i | 0 <= i < |xs| :: xs[i] == xs[0]
  }

  /** The distinct values of a line, as `new Set(results)` collects them. */
  function Values(xs: seq<Cell>): set<Cell> {
    set c | c in xs
  }

  /** A set of one element is exactly the singleton of any of its members. */
  lemma SingletonOf(items: set<Cell>, a: Cell)
    requires |items| == 1 && a in items
    ensures items == {a}
  {
    var rest := items - {a};
    assert |rest| == 0;
  }

  /** The set test of `isFilled` agrees with the reference meaning `Uniform`. */
  lemma IsFilledIffUniform(xs: seq<Cell>)
    ensures IsFilled(xs) <==> Uniform(xs)
  {
    var items := Values(xs);
    if Uniform(xs) {
      assert forall c | c in items :: c == xs[0];
      assert items == {xs[0]};
    }
    if |items| == 1 && Empty !in items {
      assert xs[0] in items;
      SingletonOf(items, xs[0]);
      forall i | 0 <= i < |xs| ensures xs[i] == xs[0] {
        assert xs[i] in items;
      }
    }
  }

  /** `isFilled`: exactly one distinct value, and that value is not `null`.
      An empty line has no values, so it is never filled. */
  function IsFilled(xs: seq<Cell>): bool {
    |Values(xs)| == 1 && Empty !in Values(xs)
  }

  function Min(a: nat, b: nat): nat { if a <= b then a else b }

  /** `Array.prototype.slice(lo, hi)` for non-negative bounds: both bounds are
      clamped to the length, and a reversed range gives an empty result. */
  function Slice(xs: seq<Cell>, lo: nat, hi: nat): (r: seq<Cell>)
    ensures lo <= hi <= |xs| ==> r == xs[lo..hi]
    ensures |r| <= |xs|
  {
    var a, b := Min(lo, |xs|), Min(hi, |xs|);
    if a <= b then xs[a..b] else []
  }

  /** The values `results.slice(r * size, r * size + size)` that the row
      detector tests for row `r`. */
  function RowCells(results: seq<Cell>, size: nat, r: nat): seq<Cell> {
    Slice(results, r * size, r * size + size)
  }

  /** The cells at indices `j >= from` with `j % size == c`, in index order. */
  function ColumnFrom(results: seq<Cell>, size: nat, c: nat, from: nat): seq<Cell>
    requires size > 0
    decreases |results| - from
  {
    if from >= |results| then []
    else (if from % size == c then [results[from]] else []) + ColumnFrom(results, size, c, from + 1)
  }

  /** The values `results.filter((_, j) => j % size === c)` that the column
      detector tests for column `c`. */
  function ColumnCells(results: seq<Cell>, size: nat, c: nat): seq<Cell>
    requires size > 0
  {
    ColumnFrom(results, size, c, 0)
  }

  // Row-major geometry: cell `i` lies in row `i / size` and column `i % size`.

  /** The indices of row `r`: `r * size + k` for k in [0, size). */
  function RowIndices(size: nat, r: nat): (idxs: seq<nat>)
    ensures |idxs| == size
    ensures r < size ==> OnBoard(size * size, idxs)
  {
    var idxs := seq(size, k => r * size + k);
    if r < size then
      assert OnBoard(size * size, idxs) by {
        forall k | 0 <= k < size ensures idxs[k] < size * size {
          CellOnBoard(size, r, k);
        }
      }
      idxs
    else idxs
  }

  /** The indices of column `c`: `k * size + c` for k in [0, size). */
  function ColumnIndices(size: nat, c: nat): (idxs: seq<nat>)
    ensures |idxs| == size
    ensures c < size ==> OnBoard(size * size, idxs)
  {
    var idxs := seq(size, k => k * size + c);
    if c < size then
      assert OnBoard(size * size, idxs) by {
        forall k | 0 <= k < size ensures idxs[k] < size * size {
          CellOnBoard(size, k, c);
        }
      }
      idxs
    else idxs
  }

  /** The indices of the main diagonal: `i * size + i`, top-left to bottom-right. */
  function MainDiagonalIndices(size: nat): (idxs: seq<nat>)
    ensures |idxs| == size
    ensures OnBoard(size * size, idxs)
  {
    var idxs := seq(size, k => k * size + k);
    assert OnBoard(size * size, idxs) by {
      forall k | 0 <= k < size ensures idxs[k] < size * size {
        CellOnBoard(size, k, k);
      }
    }
    idxs
  }

  /** The indices of the anti-diagonal: `i * size + size - i - 1`, top-right to
      bottom-left. */
  function AntiDiagonalIndices(size: nat): (idxs: seq<nat>)
    ensures |idxs| == size
    ensures OnBoard(size * size, idxs)
  {
    var idxs := seq(size, k requires 0 <= k < size => k * size + size - k - 1);
    assert OnBoard(size * size, idxs) by {
      forall k | 0 <= k < size ensures idxs[k] < size * size {
        CellOnBoard(size, k, size - k - 1);
      }
    }
    idxs
  }

  /** Every index of `idxs` is a cell of a board of `n` cells. */
  predicate OnBoard(n: nat, idxs: seq<nat>) {
    forall k | 0 <= k < |idxs| :: idxs[k] < n
  }

  /** The cells of the board at the given indices, in order. */
  function Line(results: seq<Cell>, idxs: seq<nat>): (line: seq<Cell>)
    requires OnBoard(|results|, idxs)
    ensures |line| == |idxs|
    ensures forall k | 0 <= k < |idxs| :: line[k] == results[idxs[k]]
  {
    seq(|idxs|, k requires 0 <= k < |idxs| => results[idxs[k]])
  }

  /** Row `r`, column `t` of a board of side `size` is a cell of the board. */
  lemma CellOnBoard(size: nat, r: nat, t: nat)
    requires r < size && t < size
    ensures r * size + t < size * size
  {
    assert r * size <= (size - 1) * size;
  }

  /** `size * d` grows with `d`. */
  lemma MulGrows(size: nat, d: nat)
    requires d >= 1
    ensures size * d >= size
  {
  }

  /** Position `t` of row `m` has column `t`. */
  lemma RowMajorMod(size: nat, m: nat, t: nat)
    requires t < size
    ensures (m * size + t) % size == t
  {
    var x := m * size + t;
    var q, rem := x / size, x % size;
    assert x == size * q + rem;
    assert m * size == size * m;
    if q < m {
      MulGrows(size, m - q);
    } else if q > m {
      MulGrows(size, q - m);
    }
  }

  /** On a full board, the slice the row detector takes is row `r`. */
  lemma RowCellsAsLine(results: seq<Cell>, size: nat, r: nat)
    requires |results| == size * size && r < size
    ensures RowCells(results, size, r) == Line(results, RowIndices(size, r))
  {
    CellOnBoard(size, r, size - 1);
  }

  /** Within row `m`, walking from index `j` to the start of row `m + 1`
      meets column `c` once if `j` has not passed it, and not at all otherwise. */
  lemma {:induction false} ColumnWithinRow(results: seq<Cell>, size: nat, c: nat, m: nat, j: nat)
    requires c < size && m * size <= j <= m * size + size <= |results|
    ensures ColumnFrom(results, size, c, j)
         == (if j <= m * size + c then [results[m * size + c]] else []) + ColumnFrom(results, size, c, m * size + size)
    decreases m * size + size - j
  {
    if j < m * size + size {
      ColumnWithinRow(results, size, c, m, j + 1);
      RowMajorMod(size, m, j - m * size);
    }
  }

  /** On a full board, the column cells from the start of row `m` are the
      cells of column `c` in rows `m`, `m + 1`, ... */
  lemma {:induction false} ColumnFromRow(results: seq<Cell>, size: nat, c: nat, m: nat)
    requires |results| == size * size && c < size && m <= size
    ensures m * size <= |results|
    ensures OnBoard(|results|, ColumnIndices(size, c)[m..])
    ensures ColumnFrom(results, size, c, m * size) == Line(results, ColumnIndices(size, c)[m..])
    decreases size - m
  {
    var idxs := ColumnIndices(size, c);
    if m < size {
      var start := m * size;
      CellOnBoard(size, m, size - 1);
      ColumnWithinRow(results, size, c, m, start);
      assert (m + 1) * size == start + size;
      ColumnFromRow(results, size, c, m + 1);
      assert idxs[m] == start + c;
      assert idxs[m..] == [idxs[m]] + idxs[m + 1..];
      var rest := Line(results, idxs[m + 1..]);
      assert Line(results, idxs[m..]) == [results[start + c]] + rest;
    } else {
      assert m * size == size * size;
    }
  }

  /** On a full board, the filtered cells the column detector takes are column `c`. */
  lemma ColumnCellsAsLine(results: seq<Cell>, size: nat, c: nat)
    requires |results| == size * size && c < size
    ensures ColumnCells(results, size, c) == Line(results, ColumnIndices(size, c))
  {
    ColumnFromRow(results, size, c, 0);
  }
}
