/** `SudokuDLX`: the exact cover matrix of a 9 by 9 Sudoku. Row `getIndex(r, c, v)`
    of the 729 rows stands for value `v` in cell (`r`, `c`); the 324 columns are
    the constraints, in the order the code fills them: 81 cell constraints
    ("cell (r, c) is filled"), 81 row constraints ("row r holds v"), 81 column
    constraints ("column c holds v") and 81 block constraints ("block b holds v"). */
module Sudoku {

  /** A row, column or value number of the puzzle, 1 to 9. */
  predicate Digit(d: int)
  {
    1 <= d <= 9
  }

  /** `getIndex(R, C, V)`: the matrix row of value `v` in cell (`r`, `c`). */
  function GetIndex(r: int, c: int, v: int): int
  {
    81 * (r - 1) + 9 * (c - 1) + v - 1
  }

  /** The cell row, cell column and value that matrix row `x` stands for. */
  function RowOf(x: int): int { x / 81 + 1 }
  function ColOf(x: int): int { x / 9 % 9 + 1 }
  function ValOf(x: int): int { x % 9 + 1 }

  /** `getIndex` maps the triples of digits into 0..728, and `RowOf`, `ColOf`
      and `ValOf` read the triple back. */
  lemma GetIndexDecodes(r: int, c: int, v: int)
    requires Digit(r) && Digit(c) && Digit(v)
    ensures var x := GetIndex(r, c, v);
      0 <= x < 729 && RowOf(x) == r && ColOf(x) == c && ValOf(x) == v
  {
    var x := GetIndex(r, c, v);
    assert x == 9 * (9 * (r - 1) + (c - 1)) + (v - 1);
    assert x / 9 == 9 * (r - 1) + (c - 1);
    assert x / 81 == (x / 9) / 9;
  }

  /** Every matrix row 0..728 is `getIndex` of the digits it decodes to. */
  lemma GetIndexOnto(x: int)
    requires 0 <= x < 729
    ensures Digit(RowOf(x)) && Digit(ColOf(x)) && Digit(ValOf(x))
    ensures GetIndex(RowOf(x), ColOf(x), ValOf(x)) == x
  {
    assert x / 81 == (x / 9) / 9;
    assert x == 9 * (x / 9) + x % 9;
    assert x / 9 == 9 * (x / 81) + x / 9 % 9;
  }

  /** `getIndex` is a bijection from the triples of digits onto 0..728. */
  lemma GetIndexBijection()
    ensures forall r, c, v | Digit(r) && Digit(c) && Digit(v) :: 0 <= GetIndex(r, c, v) < 729
    ensures forall r, c, v, r', c', v' | Digit(r) && Digit(c) && Digit(v) && Digit(r') && Digit(c') && Digit(v') ::
      GetIndex(r, c, v) == GetIndex(r', c', v') ==> r == r' && c == c' && v == v'
    ensures forall x | 0 <= x < 729 ::
      Digit(RowOf(x)) && Digit(ColOf(x)) && Digit(ValOf(x)) && GetIndex(RowOf(x), ColOf(x), ValOf(x)) == x
  {
    forall r, c, v | Digit(r) && Digit(c) && Digit(v) ensures 0 <= GetIndex(r, c, v) < 729 {
      GetIndexDecodes(r, c, v);
    }
    forall r, c, v, r', c', v' | Digit(r) && Digit(c) && Digit(v) && Digit(r') && Digit(c') && Digit(v')
      ensures GetIndex(r, c, v) == GetIndex(r', c', v') ==> r == r' && c == c' && v == v'
    {
      GetIndexDecodes(r, c, v);
      GetIndexDecodes(r', c', v');
    }
    forall x | 0 <= x < 729
      ensures Digit(RowOf(x)) && Digit(ColOf(x)) && Digit(ValOf(x)) && GetIndex(RowOf(x), ColOf(x), ValOf(x)) == x
    {
      GetIndexOnto(x);
    }
  }

  // ---------------------------------------------------------------------------
  // The constraint columns
  // ---------------------------------------------------------------------------

  /** "Cell (r, c) is filled": columns 0..80. */
  function CellColumn(r: int, c: int): int { 9 * (r - 1) + (c - 1) }

  /** "Row r holds v": columns 81..161. */
  function RowColumn(r: int, v: int): int { 81 + 9 * (r - 1) + (v - 1) }

  /** "Column c holds v": columns 162..242. */
  function ColumnColumn(c: int, v: int): int { 162 + 9 * (c - 1) + (v - 1) }

  /** The block of cell (r, c), 0..8, row by row of blocks. */
  function Block(r: int, c: int): int { 3 * ((r - 1) / 3) + (c - 1) / 3 }

  /** "Block b holds v": columns 243..323. */
  function BlockColumn(r: int, c: int, v: int): int { 243 + 9 * Block(r, c) + (v - 1) }

  /** The four columns with a 1 in matrix row `x`, in increasing order. */
  function Constraints(x: int): seq<int>
  {
    var r, c, v := RowOf(x), ColOf(x), ValOf(x);
    [CellColumn(r, c), RowColumn(r, v), ColumnColumn(c, v), BlockColumn(r, c, v)]
  }

  /** The entry of the empty-board matrix at row `x` and column `h`. */
  function Entry(x: int, h: int): int
  {
    if 0 <= x < 729 && h in Constraints(x) then 1 else 0
  }

  /** The four constraints of a triple of digits lie in their own quarters of
      0..323, in increasing order. */
  lemma DigitColumns(r: int, c: int, v: int)
    requires Digit(r) && Digit(c) && Digit(v)
    ensures 0 <= CellColumn(r, c) < 81 <= RowColumn(r, v) < 162 <= ColumnColumn(c, v) < 243
    ensures 243 <= BlockColumn(r, c, v) < 324 && 0 <= Block(r, c) < 9
  {
  }

  /** The constraint columns of a row lie in their own quarters of 0..323, in
      increasing order. */
  lemma ConstraintsOrdered(x: int)
    requires 0 <= x < 729
    ensures var k := Constraints(x);
      && 0 <= k[0] < 81 <= k[1] < 162 <= k[2] < 243 <= k[3] < 324
  {
    GetIndexOnto(x);
    DigitColumns(RowOf(x), ColOf(x), ValOf(x));
  }

  /** Two rows that decode to the same triple are the same row. */
  lemma SameTriple(x: int, y: int)
    requires 0 <= x < 729 && 0 <= y < 729
    requires RowOf(x) == RowOf(y) && ColOf(x) == ColOf(y) && ValOf(x) == ValOf(y)
    ensures x == y
  {
    GetIndexOnto(x);
    GetIndexOnto(y);
  }

  /** A column number of each kind names its digits. */
  lemma ColumnDigits(r: int, c: int, v: int, r': int, c': int, v': int)
    requires Digit(r) && Digit(c) && Digit(v) && Digit(r') && Digit(c') && Digit(v')
    ensures CellColumn(r, c) == CellColumn(r', c') ==> r == r' && c == c'
    ensures RowColumn(r, v) == RowColumn(r', v') ==> r == r' && v == v'
    ensures ColumnColumn(c, v) == ColumnColumn(c', v') ==> c == c' && v == v'
    ensures BlockColumn(r, c, v) == BlockColumn(r', c', v') ==> Block(r, c) == Block(r', c') && v == v'
    ensures Block(r, c) == Block(r', c') && (r - 1) % 3 == (r' - 1) % 3 && (c - 1) % 3 == (c' - 1) % 3 ==> r == r' && c == c'
  {
  }

  /** Row `getIndex(r, c, v)` has its 1s exactly at the cell, row, column and
      block constraints of (r, c, v): four columns, in that order. */
  lemma RowOnes(r: int, c: int, v: int, h: int)
    requires Digit(r) && Digit(c) && Digit(v)
    ensures Constraints(GetIndex(r, c, v)) == [CellColumn(r, c), RowColumn(r, v), ColumnColumn(c, v), BlockColumn(r, c, v)]
    ensures Entry(GetIndex(r, c, v), h) == 1 <==>
      h == CellColumn(r, c) || h == RowColumn(r, v) || h == ColumnColumn(c, v) || h == BlockColumn(r, c, v)
  {
    GetIndexDecodes(r, c, v);
  }

  /** The cell constraints are the first 81 columns: column `h < 81` has its 1s
      at the nine values of cell (h / 9 + 1, h % 9 + 1). */
  lemma CellColumnsFirst(x: int, h: int)
    requires 0 <= x < 729 && 0 <= h < 81
    ensures Entry(x, h) == 1 <==> RowOf(x) == h / 9 + 1 && ColOf(x) == h % 9 + 1
  {
    ConstraintsOrdered(x);
    GetIndexOnto(x);
    var r, c := RowOf(x), ColOf(x);
    assert Entry(x, h) == 1 <==> h == CellColumn(r, c);
    assert CellColumn(r, c) / 9 == r - 1 && CellColumn(r, c) % 9 == c - 1;
  }

  /** The position among the nine 1s of column `h` at which `sudokuExactCover`
      writes row `x`'s: by value for a cell constraint, by cell column for a row
      constraint, by cell row for a column constraint, and row by row within
      the block for a block constraint. */
  function Ordinal(x: int, h: int): int
  {
    Position(h, RowOf(x), ColOf(x), ValOf(x))
  }

  /** `Ordinal` on the digits of a row. */
  function Position(h: int, r: int, c: int, v: int): int
  {
    if h < 81 then v - 1
    else if h < 162 then c - 1
    else if h < 243 then r - 1
    else 3 * ((r - 1) % 3) + (c - 1) % 3
  }

  /** The four constraints of (r, c, v) as a set. */
  predicate Meets(h: int, r: int, c: int, v: int)
  {
    h == CellColumn(r, c) || h == RowColumn(r, v) || h == ColumnColumn(c, v) || h == BlockColumn(r, c, v)
  }

  /** A column and a position in it name one triple of digits. */
  lemma PositionUnique(h: int, r: int, c: int, v: int, r': int, c': int, v': int)
    requires Digit(r) && Digit(c) && Digit(v) && Digit(r') && Digit(c') && Digit(v')
    requires Meets(h, r, c, v) && Meets(h, r', c', v') && Position(h, r, c, v) == Position(h, r', c', v')
    ensures r == r' && c == c' && v == v'
  {
    DigitColumns(r, c, v);
    DigitColumns(r', c', v');
    ColumnDigits(r, c, v, r', c', v');
    if h < 81 {
      assert h == CellColumn(r, c) == CellColumn(r', c');
    } else if h < 162 {
      assert h == RowColumn(r, v) == RowColumn(r', v');
    } else if h < 243 {
      assert h == ColumnColumn(c, v) == ColumnColumn(c', v');
    } else {
      assert h == BlockColumn(r, c, v) == BlockColumn(r', c', v');
    }
  }

  /** Two rows with a 1 in column `h` at the same position are the same row: a
      column has at most nine 1s. */
  lemma OrdinalUnique(x: int, y: int, h: int)
    requires 0 <= h < 324 && Entry(x, h) == 1 && Entry(y, h) == 1 && Ordinal(x, h) == Ordinal(y, h)
    ensures x == y
  {
    GetIndexOnto(x);
    GetIndexOnto(y);
    PositionUnique(h, RowOf(x), ColOf(x), ValOf(x), RowOf(y), ColOf(y), ValOf(y));
    SameTriple(x, y);
  }

  /** Row `x` has a 1 in column `h` at a position 0..8. */
  lemma OrdinalRange(x: int, h: int)
    requires 0 <= h < 324 && Entry(x, h) == 1
    ensures 0 <= Ordinal(x, h) < 9
  {
    GetIndexOnto(x);
  }

  /** Cell (br + rDelta, bc + cDelta) lies in the block with top left cell
      (br, bc), at position 3 * rDelta + cDelta within it. */
  lemma BlockCell(br: int, bc: int, v: int, rDelta: int, cDelta: int)
    requires br in {1, 4, 7} && bc in {1, 4, 7} && 0 <= rDelta < 3 && 0 <= cDelta < 3
    ensures BlockColumn(br + rDelta, bc + cDelta, v) == 243 + 9 * (br - 1) + 3 * (bc - 1) + (v - 1)
    ensures 3 * ((br + rDelta - 1) % 3) + (bc + cDelta - 1) % 3 == 3 * rDelta + cDelta
  {
    assert (br + rDelta - 1) / 3 == (br - 1) / 3 && (br + rDelta - 1) % 3 == rDelta;
    assert (bc + cDelta - 1) / 3 == (bc - 1) / 3 && (bc + cDelta - 1) % 3 == cDelta;
  }

  /** Row `getIndex(r, c, v)` has a 1 in each column of its four constraints,
      at the position `Position` gives. */
  lemma Placed(h: int, r: int, c: int, v: int)
    requires Digit(r) && Digit(c) && Digit(v) && Meets(h, r, c, v)
    ensures var x := GetIndex(r, c, v);
      0 <= x < 729 && Entry(x, h) == 1 && Ordinal(x, h) == Position(h, r, c, v)
  {
    GetIndexDecodes(r, c, v);
  }

  /** The row at position `k` of column `h`: the triple of digits the column
      names, completed by `k`. */
  function ColumnRow(h: int, k: int): int
  {
    if h < 81 then GetIndex(h / 9 + 1, h % 9 + 1, k + 1)
    else if h < 162 then GetIndex((h - 81) / 9 + 1, k + 1, (h - 81) % 9 + 1)
    else if h < 243 then GetIndex(k + 1, (h - 162) / 9 + 1, (h - 162) % 9 + 1)
    else
      var b := (h - 243) / 9;
      GetIndex(3 * (b / 3) + 1 + k / 3, 3 * (b % 3) + 1 + k % 3, (h - 243) % 9 + 1)
  }

  /** Column `h` of kind `base` (0, 81, 162 or 243) splits as `base + 9 * q + rem`. */
  lemma ColumnSplit(h: int, base: int)
    requires base <= h < base + 81
    ensures 0 <= (h - base) / 9 < 9 && 0 <= (h - base) % 9 < 9
    ensures h == base + 9 * ((h - base) / 9) + (h - base) % 9
  {
  }

  /** Every position 0..8 of every column holds a 1. */
  lemma ColumnRowPlaced(h: int, k: int)
    requires 0 <= h < 324 && 0 <= k < 9
    ensures var x := ColumnRow(h, k);
      0 <= x < 729 && Entry(x, h) == 1 && Ordinal(x, h) == k
  {
    if h < 81 {
      ColumnSplit(h, 0);
      var q, rem := h / 9, h % 9;
      assert h == CellColumn(q + 1, rem + 1);
      Placed(h, q + 1, rem + 1, k + 1);
      assert ColumnRow(h, k) == GetIndex(q + 1, rem + 1, k + 1);
    } else if h < 162 {
      ColumnSplit(h, 81);
      var q, rem := (h - 81) / 9, (h - 81) % 9;
      assert h == RowColumn(q + 1, rem + 1);
      Placed(h, q + 1, k + 1, rem + 1);
      assert ColumnRow(h, k) == GetIndex(q + 1, k + 1, rem + 1);
    } else if h < 243 {
      ColumnSplit(h, 162);
      var q, rem := (h - 162) / 9, (h - 162) % 9;
      assert h == ColumnColumn(q + 1, rem + 1);
      Placed(h, k + 1, q + 1, rem + 1);
      assert ColumnRow(h, k) == GetIndex(k + 1, q + 1, rem + 1);
    } else {
      ColumnSplit(h, 243);
      var b, rem := (h - 243) / 9, (h - 243) % 9;
      BlockPlaced(h, k, b, rem);
      assert ColumnRow(h, k) == GetIndex(3 * (b / 3) + 1 + k / 3, 3 * (b % 3) + 1 + k % 3, rem + 1);
    }
  }

  /** The block case of `ColumnRowPlaced`, for block `b` and value `rem + 1`. */
  lemma BlockPlaced(h: int, k: int, b: int, rem: int)
    requires 0 <= k < 9 && 0 <= b < 9 && 0 <= rem < 9 && h == 243 + 9 * b + rem
    ensures var x := GetIndex(3 * (b / 3) + 1 + k / 3, 3 * (b % 3) + 1 + k % 3, rem + 1);
      0 <= x < 729 && Entry(x, h) == 1 && Ordinal(x, h) == k
  {
    BlockDigits(b / 3, b % 3, k / 3, k % 3);
    var r, c := 3 * (b / 3) + 1 + k / 3, 3 * (b % 3) + 1 + k % 3;
    assert Block(r, c) == b;
    assert Position(h, r, c, rem + 1) == k;
    Placed(h, r, c, rem + 1);
  }

  /** Cell (3 * bq + 1 + kq, 3 * bm + 1 + km) is in block 3 * bq + bm, at
      position 3 * kq + km within it. */
  lemma BlockDigits(bq: int, bm: int, kq: int, km: int)
    requires 0 <= bq < 3 && 0 <= bm < 3 && 0 <= kq < 3 && 0 <= km < 3
    ensures var r, c := 3 * bq + 1 + kq, 3 * bm + 1 + km;
      Digit(r) && Digit(c) && Block(r, c) == 3 * bq + bm
      && 3 * ((r - 1) % 3) + (c - 1) % 3 == 3 * kq + km
  {
    assert (3 * bq + kq) / 3 == bq && (3 * bq + kq) % 3 == kq;
    assert (3 * bm + km) / 3 == bm && (3 * bm + km) % 3 == km;
  }

  /** A sequence of different numbers has as many distinct members as entries. */
  lemma {:induction false} DistinctCount(xs: seq<int>)
    requires forall i, j | 0 <= i < j < |xs| :: xs[i] != xs[j]
    ensures |set x | x in xs| == |xs|
  {
    if xs != [] {
      DistinctCount(xs[1..]);
      assert (set x | x in xs) == {xs[0]} + set x | x in xs[1..];
    }
  }

  /** Each of the 324 columns of the matrix has exactly nine 1s: the rows at
      its positions 0..8. */
  lemma ColumnNineOnes(h: int)
    requires 0 <= h < 324
    ensures (set x | 0 <= x < 729 && Entry(x, h) == 1) == set k | 0 <= k < 9 :: ColumnRow(h, k)
    ensures |set x | 0 <= x < 729 && Entry(x, h) == 1| == 9
  {
    var ones := set x | 0 <= x < 729 && Entry(x, h) == 1;
    var xs := seq(9, k requires 0 <= k < 9 => ColumnRow(h, k));
    forall x | x in ones ensures x in xs {
      OrdinalRange(x, h);
      var k := Ordinal(x, h);
      ColumnRowPlaced(h, k);
      OrdinalUnique(x, ColumnRow(h, k), h);
      assert xs[k] == x;
    }
    forall x | x in xs ensures x in ones {
      var k :| 0 <= k < 9 && xs[k] == x;
      ColumnRowPlaced(h, k);
    }
    forall i, j | 0 <= i < j < 9 ensures xs[i] != xs[j] {
      ColumnRowPlaced(h, i);
      ColumnRowPlaced(h, j);
    }
    assert ones == set x | x in xs;
    var rows := set k | 0 <= k < 9 :: ColumnRow(h, k);
    forall x | x in xs ensures x in rows {
      var k :| 0 <= k < 9 && xs[k] == x;
    }
    forall x | x in rows ensures x in xs {
      var k :| 0 <= k < 9 && ColumnRow(h, k) == x;
      assert xs[k] == x;
    }
    assert rows == set x | x in xs;
    DistinctCount(xs);
  }

  // ---------------------------------------------------------------------------
  // Filling the matrix column by column
  // ---------------------------------------------------------------------------

  /** The entry at (x, h) once the columns before `hBase`, and the first `k`
      rows of column `hBase` in the order the code writes them, are filled. */
  function Written(x: int, h: int, hBase: int, k: int): int
  {
    if Entry(x, h) == 1 && (h < hBase || (h == hBase && Ordinal(x, h) < k)) then 1 else 0
  }

  /** Writing the row at position `k` of column `hBase` moves the fill on by one. */
  lemma WriteNext(x0: int, hBase: int, k: int)
    requires 0 <= x0 < 729 && 0 <= hBase < 324 && Entry(x0, hBase) == 1 && Ordinal(x0, hBase) == k
    ensures Written(x0, hBase, hBase, k + 1) == 1
    ensures forall x, h | x != x0 || h != hBase :: Written(x, h, hBase, k + 1) == Written(x, h, hBase, k)
  {
    forall x, h | x != x0 || h != hBase
      ensures Written(x, h, hBase, k + 1) == Written(x, h, hBase, k)
    {
      if h == hBase && Entry(x, h) == 1 && Ordinal(x, h) == k {
        OrdinalUnique(x, x0, hBase);
      }
    }
  }

  /** After nine rows a column is complete. */
  lemma ColumnDone(hBase: int)
    requires 0 <= hBase < 324
    ensures forall x, h | 0 <= h < 324 :: Written(x, h, hBase, 9) == Written(x, h, hBase + 1, 0)
  {
    forall x, h | 0 <= h < 324 ensures Written(x, h, hBase, 9) == Written(x, h, hBase + 1, 0) {
      if h == hBase && Entry(x, h) == 1 {
        OrdinalRange(x, h);
      }
    }
  }

  /** Before the first write nothing is filled. */
  lemma NothingWritten()
    ensures forall x, h | 0 <= h < 324 :: Written(x, h, 0, 0) == 0
  {
    forall x, h | 0 <= h < 324 ensures Written(x, h, 0, 0) == 0 {
      if h == 0 && Entry(x, h) == 1 {
        OrdinalRange(x, h);
      }
    }
  }

  // ---------------------------------------------------------------------------
  // The clues
  // ---------------------------------------------------------------------------

  /** A Java `int[9][9]` board: nine rows of at least nine entries, 0 for an
      empty cell. */
  predicate IsBoard(s: seq<seq<int>>)
  {
    |s| >= 9 && forall i | 0 <= i < 9 :: |s[i]| >= 9
  }

  /** A board of exactly 9 by 9 cells, as `parseBoard` of a `SudokuHandler(9)`
      makes. */
  predicate NineByNine(B: seq<seq<int>>)
  {
    |B| == 9 && forall a | 0 <= a < 9 :: |B[a]| == 9
  }

  /** Matrix row `x` contradicts a clue: its cell holds a clue other than its value. */
  predicate Cleared(s: seq<seq<int>>, x: int)
    requires IsBoard(s) && 0 <= x < 729
  {
    var n := s[RowOf(x) - 1][ColOf(x) - 1];
    n != 0 && ValOf(x) != n
  }

  /** The entry of the matrix `makeExactCoverGrid` builds for the board `s`: the
      rows that contradict a clue are all 0. */
  function ClueEntry(s: seq<seq<int>>, x: int, h: int): int
    requires IsBoard(s)
  {
    if 0 <= x < 729 && Cleared(s, x) then 0 else Entry(x, h)
  }

  /** The nine rows from `getIndex(r, c, 1)` on are those of cell (r, c). */
  lemma CellRows(r: int, c: int, x: int)
    requires Digit(r) && Digit(c) && GetIndex(r, c, 1) <= x < GetIndex(r, c, 1) + 9
    ensures 0 <= x < 729 && RowOf(x) == r && ColOf(x) == c && x == GetIndex(r, c, ValOf(x))
  {
    GetIndexDecodes(r, c, x - GetIndex(r, c, 1) + 1);
  }

  /** Row `getIndex(i, j, num)` contradicts a clue exactly when cell (i, j) holds
      a clue other than `num`. */
  lemma ClueRow(s: seq<seq<int>>, i: int, j: int, num: int)
    requires IsBoard(s) && Digit(i) && Digit(j) && Digit(num)
    ensures var x := GetIndex(i, j, num);
      0 <= x < 729 && (Cleared(s, x) <==> s[i - 1][j - 1] != 0 && num != s[i - 1][j - 1])
  {
    GetIndexDecodes(i, j, num);
  }
}
