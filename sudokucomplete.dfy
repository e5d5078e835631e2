/** The converse of `SudokuSolve.CoverSolves`: every completed board that keeps
    the clues is an exact cover of the clue matrix. Its 81 matrix rows, one
    `getIndex(r, c, v)` per cell, contradict no clue, share no constraint and
    meet all 324, and `parseBoard` reads the board back from them. */
module SudokuComplete {
  import opened Sudoku
  import opened SudokuSolve

  /** The matrix rows of the board `B`: cell (t / 9, t % 9) with its digit, for
      t = 0..80, cells in row-major order. */
  function BoardRows(B: seq<seq<int>>): (xs: seq<int>)
    requires NineByNine(B)
    ensures |xs| == 81
  {
    seq(81, t requires 0 <= t < 81 => GetIndex(t / 9 + 1, t % 9 + 1, B[t / 9][t % 9]))
  }

  /** A subset has at most as many members as the set around it. */
  lemma SubsetCard(A: set<int>, D: set<int>)
    requires A <= D
    ensures |A| <= |D|
  {
    assert D == A + (D - A);
  }

  /** Nine different digits are all nine digits. */
  lemma AllDigits(vs: seq<int>)
    requires |vs| == 9 && forall i | 0 <= i < 9 :: Digit(vs[i])
    requires forall i, j | 0 <= i < j < 9 :: vs[i] != vs[j]
    ensures forall v | Digit(v) :: v in vs
  {
    DistinctCount(vs);
    forall v | Digit(v) ensures v in vs {
      if v !in vs {
        var D := {1, 2, 3, 4, 5, 6, 7, 8, 9} - {v};
        SubsetCard((set x | x in vs), D);
        assert false;
      }
    }
  }

  /** Two placements in different cells share no constraint when neither their
      row, their column nor their block holds the same digit twice. */
  lemma TriplesApart(r: int, c: int, v: int, r': int, c': int, v': int)
    requires Digit(r) && Digit(c) && Digit(v) && Digit(r') && Digit(c') && Digit(v')
    requires (r, c) != (r', c')
    requires r == r' ==> v != v'
    requires c == c' ==> v != v'
    requires Block(r, c) == Block(r', c') ==> v != v'
    ensures Apart(GetIndex(r, c, v), GetIndex(r', c', v'))
  {
    RowOnes(r, c, v, 0);
    RowOnes(r', c', v', 0);
    DigitColumns(r, c, v);
    DigitColumns(r', c', v');
    ColumnDigits(r, c, v, r', c', v');
  }

  /** Row `t` of `BoardRows(B)` places the digit of cell (t / 9, t % 9). */
  lemma BoardRow(B: seq<seq<int>>, s: seq<seq<int>>, t: int)
    requires Filled(B, s) && 0 <= t < 81
    ensures var x, a, b := BoardRows(B)[t], t / 9, t % 9;
      0 <= a < 9 && 0 <= b < 9 && t == 9 * a + b &&
      0 <= x < 729 && RowOf(x) == a + 1 && ColOf(x) == b + 1 && ValOf(x) == B[a][b] &&
      x == GetIndex(a + 1, b + 1, B[a][b]) && !Cleared(s, x)
  {
    GetIndexDecodes(t / 9 + 1, t % 9 + 1, B[t / 9][t % 9]);
  }

  /** Two cells of one row of a board without repeats in its rows differ. */
  lemma RowApart(B: seq<seq<int>>, a: int, b: int, b': int)
    requires NineByNine(B) && RowsDistinct(B) && 0 <= a < 9 && 0 <= b < 9 && 0 <= b' < 9 && b != b'
    ensures B[a][b] != B[a][b']
  {
    if b' < b {
      assert B[a][b'] != B[a][b];
    }
  }

  /** Two cells of one column of a board without repeats in its columns differ. */
  lemma ColumnApart(B: seq<seq<int>>, a: int, a': int, b: int)
    requires NineByNine(B) && ColumnsDistinct(B) && 0 <= a < 9 && 0 <= a' < 9 && 0 <= b < 9 && a != a'
    ensures B[a][b] != B[a'][b]
  {
    if a' < a {
      assert B[a'][b] != B[a][b];
    }
  }

  /** The rows of two different cells of a completed board share no constraint. */
  lemma CellsApart(B: seq<seq<int>>, a: int, b: int, a': int, b': int)
    requires NineByNine(B) && RowsDistinct(B) && ColumnsDistinct(B) && BlocksDistinct(B)
    requires 0 <= a < 9 && 0 <= b < 9 && 0 <= a' < 9 && 0 <= b' < 9 && (a, b) != (a', b')
    requires Digit(B[a][b]) && Digit(B[a'][b'])
    ensures Apart(GetIndex(a + 1, b + 1, B[a][b]), GetIndex(a' + 1, b' + 1, B[a'][b']))
  {
    if a == a' {
      RowApart(B, a, b, b');
    }
    if b == b' {
      ColumnApart(B, a, a', b);
    }
    TriplesApart(a + 1, b + 1, B[a][b], a' + 1, b' + 1, B[a'][b']);
  }

  /** The row of cell (a, b) of a completed board meets the cell, row, column
      and block constraints of the digit it holds. */
  lemma CellMeets(B: seq<seq<int>>, s: seq<seq<int>>, a: int, b: int, h: int)
    requires Filled(B, s) && 0 <= a < 9 && 0 <= b < 9 && Meets(h, a + 1, b + 1, B[a][b])
    ensures Met(BoardRows(B), h)
  {
    var t := 9 * a + b;
    assert t / 9 == a && t % 9 == b;
    BoardRow(B, s, t);
    RowOnes(a + 1, b + 1, B[a][b], h);
  }

  /** Every constraint 0..323 is met by a row of a completed board: a cell
      constraint by its cell, and a row, column or block constraint by the cell
      of that row, column or block that holds its digit, since nine different
      digits are all of them. */
  lemma BoardRowsMeet(B: seq<seq<int>>, s: seq<seq<int>>, h: int)
    requires Solved(B, s) && 0 <= h < 324
    ensures Met(BoardRows(B), h)
  {
    if h < 81 {
      ColumnSplit(h, 0);
      var a, b := h / 9, h % 9;
      assert h == CellColumn(a + 1, b + 1);
      CellMeets(B, s, a, b, h);
    } else if h < 162 {
      ColumnSplit(h, 81);
      var a, v := (h - 81) / 9, (h - 81) % 9 + 1;
      AllDigits(B[a]);
      assert v in B[a];
      var b :| 0 <= b < 9 && B[a][b] == v;
      assert h == RowColumn(a + 1, v);
      CellMeets(B, s, a, b, h);
    } else if h < 243 {
      ColumnSplit(h, 162);
      var b, v := (h - 162) / 9, (h - 162) % 9 + 1;
      var column := seq(9, a requires 0 <= a < 9 => B[a][b]);
      AllDigits(column);
      assert v in column;
      var a :| 0 <= a < 9 && column[a] == v;
      assert h == ColumnColumn(b + 1, v);
      CellMeets(B, s, a, b, h);
    } else {
      ColumnSplit(h, 243);
      var q, v := (h - 243) / 9, (h - 243) % 9 + 1;
      var a, b := BlockHolds(B, q, v);
      assert h == BlockColumn(a + 1, b + 1, v);
      CellMeets(B, s, a, b, h);
    }
  }

  /** A number 0..8 splits into its two base-3 digits. */
  lemma Split3(q: int)
    requires 0 <= q < 9
    ensures 0 <= q / 3 < 3 && 0 <= q % 3 < 3 && q == 3 * (q / 3) + q % 3
  {
  }

  /** Two different positions `i` and `j` of block (bq, bm) hold different
      digits on a board without repeats in its blocks. */
  lemma BlockCellsApart(B: seq<seq<int>>, bq: int, bm: int, i: int, j: int)
    requires NineByNine(B) && BlocksDistinct(B) && 0 <= bq < 3 && 0 <= bm < 3 && 0 <= i < j < 9
    ensures B[3 * bq + i / 3][3 * bm + i % 3] != B[3 * bq + j / 3][3 * bm + j % 3]
  {
    Split3(i);
    Split3(j);
    var iq, im, jq, jm := i / 3, i % 3, j / 3, j % 3;
    BlockDigits(bq, bm, iq, im);
    BlockDigits(bq, bm, jq, jm);
    assert (3 * bq + iq, 3 * bm + im) != (3 * bq + jq, 3 * bm + jm);
  }

  /** Block `q` of a completed board holds digit `v` in one of its nine cells. */
  lemma BlockHolds(B: seq<seq<int>>, q: int, v: int) returns (a: int, b: int)
    requires NineByNine(B) && BlocksDistinct(B) && 0 <= q < 9 && Digit(v)
    requires forall a, b | 0 <= a < 9 && 0 <= b < 9 :: Digit(B[a][b])
    ensures 0 <= a < 9 && 0 <= b < 9 && Block(a + 1, b + 1) == q && B[a][b] == v
  {
    var bq, bm := q / 3, q % 3;
    Split3(q);
    var cells := BlockEntries(B, bq, bm);
    AllDigits(cells);
    assert v in cells;
    var k :| 0 <= k < 9 && cells[k] == v;
    a, b := BlockSeqAt(B, bq, bm, cells, k);
  }

  /** The nine digits of block (bq, bm), position by position: all different. */
  lemma BlockEntries(B: seq<seq<int>>, bq: int, bm: int) returns (cells: seq<int>)
    requires NineByNine(B) && BlocksDistinct(B) && 0 <= bq < 3 && 0 <= bm < 3
    requires forall a, b | 0 <= a < 9 && 0 <= b < 9 :: Digit(B[a][b])
    ensures BlockSeq(B, bq, bm, cells)
    ensures forall i | 0 <= i < 9 :: Digit(cells[i])
    ensures forall i, j | 0 <= i < j < 9 :: cells[i] != cells[j]
  {
    cells := BlockDigitsOf(B, bq, bm);
    BlockSeqApart(B, bq, bm, cells);
  }

  /** `cells` lists block (bq, bm) of `B` position by position. */
  ghost predicate BlockSeq(B: seq<seq<int>>, bq: int, bm: int, cells: seq<int>)
    requires NineByNine(B) && 0 <= bq < 3 && 0 <= bm < 3
  {
    |cells| == 9 && forall k | 0 <= k < 9 :: cells[k] == B[3 * bq + k / 3][3 * bm + k % 3]
  }

  /** Block (bq, bm) of a board of digits, position by position. */
  lemma BlockDigitsOf(B: seq<seq<int>>, bq: int, bm: int) returns (cells: seq<int>)
    requires NineByNine(B) && 0 <= bq < 3 && 0 <= bm < 3
    requires forall a, b | 0 <= a < 9 && 0 <= b < 9 :: Digit(B[a][b])
    ensures BlockSeq(B, bq, bm, cells) && forall i | 0 <= i < 9 :: Digit(cells[i])
  {
    cells := seq(9, k requires 0 <= k < 9 => B[3 * bq + k / 3][3 * bm + k % 3]);
    forall i | 0 <= i < 9 ensures Digit(cells[i]) {
      Split3(i);
    }
  }

  /** The positions of a block of a board without repeats in its blocks hold
      different digits. */
  lemma BlockSeqApart(B: seq<seq<int>>, bq: int, bm: int, cells: seq<int>)
    requires NineByNine(B) && BlocksDistinct(B) && 0 <= bq < 3 && 0 <= bm < 3
    requires BlockSeq(B, bq, bm, cells)
    ensures forall i, j | 0 <= i < j < 9 :: cells[i] != cells[j]
  {
    forall i, j | 0 <= i < j < 9 ensures cells[i] != cells[j] {
      BlockCellsApart(B, bq, bm, i, j);
    }
  }

  /** Position `k` of the listed block (bq, bm) is the cell (a, b) of block
      3 * bq + bm. */
  lemma BlockSeqAt(B: seq<seq<int>>, bq: int, bm: int, cells: seq<int>, k: int) returns (a: int, b: int)
    requires NineByNine(B) && 0 <= bq < 3 && 0 <= bm < 3 && BlockSeq(B, bq, bm, cells) && 0 <= k < 9
    ensures 0 <= a < 9 && 0 <= b < 9 && Block(a + 1, b + 1) == 3 * bq + bm && cells[k] == B[a][b]
  {
    a, b := BlockCell(bq, bm, k);
  }

  /** Position `k` of block (bq, bm) is the cell (a, b) of block 3 * bq + bm. */
  lemma BlockCell(bq: int, bm: int, k: int) returns (a: int, b: int)
    requires 0 <= bq < 3 && 0 <= bm < 3 && 0 <= k < 9
    ensures a == 3 * bq + k / 3 && b == 3 * bm + k % 3
    ensures 0 <= a < 9 && 0 <= b < 9 && Block(a + 1, b + 1) == 3 * bq + bm
  {
    Split3(k);
    var kq, km := k / 3, k % 3;
    BlockDigits(bq, bm, kq, km);
    a, b := 3 * bq + kq, 3 * bm + km;
    assert a + 1 == 3 * bq + 1 + kq && b + 1 == 3 * bm + 1 + km;
  }

  /** Every completed board `B` that keeps the clues of `s` is an exact cover
      of the clue matrix of `s`, and the board `parseBoard` reads from its rows
      is `B` itself: with `CoverSolves`, the exact covers and the solutions are
      the same thing. */
  lemma SolvedCovers(B: seq<seq<int>>, s: seq<seq<int>>)
    requires Solved(B, s)
    ensures Covers(s, BoardRows(B))
    ensures BoardOf(Decoded(BoardRows(B))) == B
  {
    BoardRowsCover(B, s);
    BoardRowsRead(B, s);
  }

  /** The rows of a completed board that keeps the clues form an exact cover. */
  lemma BoardRowsCover(B: seq<seq<int>>, s: seq<seq<int>>)
    requires Solved(B, s)
    ensures Covers(s, BoardRows(B))
  {
    BoardRowsKeep(B, s);
    BoardRowsApart(B, s);
    forall h | 0 <= h < 324 ensures Met(BoardRows(B), h) {
      BoardRowsMeet(B, s, h);
    }
  }

  /** The rows of a completed board are rows of the matrix that keep the clues. */
  lemma BoardRowsKeep(B: seq<seq<int>>, s: seq<seq<int>>)
    requires Solved(B, s)
    ensures forall t | 0 <= t < 81 :: 0 <= BoardRows(B)[t] < 729 && !Cleared(s, BoardRows(B)[t])
  {
    forall t | 0 <= t < 81 ensures 0 <= BoardRows(B)[t] < 729 && !Cleared(s, BoardRows(B)[t]) {
      BoardRow(B, s, t);
    }
  }

  /** No two rows of a completed board share a constraint. */
  lemma BoardRowsApart(B: seq<seq<int>>, s: seq<seq<int>>)
    requires Solved(B, s)
    ensures forall t, t' | 0 <= t < t' < 81 :: Apart(BoardRows(B)[t], BoardRows(B)[t'])
  {
    forall t, t' | 0 <= t < t' < 81 ensures Apart(BoardRows(B)[t], BoardRows(B)[t']) {
      BoardRowPairApart(B, s, t, t');
    }
  }

  /** The rows of two different cells of a completed board share no constraint. */
  lemma BoardRowPairApart(B: seq<seq<int>>, s: seq<seq<int>>, t: int, t': int)
    requires Solved(B, s) && 0 <= t < t' < 81
    ensures Apart(BoardRows(B)[t], BoardRows(B)[t'])
  {
    BoardRow(B, s, t);
    BoardRow(B, s, t');
    assert (t / 9, t % 9) != (t' / 9, t' % 9);
    CellsApart(B, t / 9, t % 9, t' / 9, t' % 9);
  }

  /** `parseBoard` reads a completed board back from its rows. */
  lemma BoardRowsRead(B: seq<seq<int>>, s: seq<seq<int>>)
    requires Solved(B, s)
    ensures BoardOf(Decoded(BoardRows(B))) == B
  {
    var xs := BoardRows(B);
    BoardRowsCover(B, s);
    forall a | 0 <= a < 9 ensures BoardOf(Decoded(xs))[a] == B[a] {
      forall b | 0 <= b < 9 ensures BoardOf(Decoded(xs))[a][b] == B[a][b] {
        var k := CellEntry(s, xs, a, b);
        BoardRow(B, s, k);
      }
    }
  }
}
