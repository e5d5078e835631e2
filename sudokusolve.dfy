/** What a board decoded from an exact cover of the Sudoku matrix is: the rows
    chosen, one per cell, place a digit in every cell, agree with the clues,
    and never repeat a digit in a row, a column or a block. */
module SudokuSolve {
  import opened Sudoku
  import opened Handler

  /** The placement `parseBoard` reads off an entry of matrix row `x`: the digit
      `ValOf(x)` in cell (`RowOf(x) - 1`, `ColOf(x) - 1`). */
  function Decode(x: int): Placement
  {
    Placement(RowOf(x) - 1, ColOf(x) - 1, ValOf(x))
  }

  /** The placements of the matrix rows `xs`, in order. */
  function Decoded(xs: seq<int>): (ps: seq<Placement>)
    ensures |ps| == |xs|
  {
    seq(|xs|, k requires 0 <= k < |xs| => Decode(xs[k]))
  }

  /** The board of zeros after the placements `ps` are written into it in order. */
  function BoardOf(ps: seq<Placement>): seq<seq<int>>
  {
    seq(9, a => seq(9, b => CellValue(ps, a, b)))
  }

  /** Matrix rows `x` and `y` share no constraint. */
  predicate Apart(x: int, y: int)
  {
    forall h | h in Constraints(x) :: h !in Constraints(y)
  }

  /** Constraint `h` is met by one of the matrix rows `xs`. */
  predicate Met(xs: seq<int>, h: int)
  {
    exists k | 0 <= k < |xs| :: h in Constraints(xs[k])
  }

  /** The matrix rows `xs` of the clue matrix of `s` are an exact cover: none
      contradicts a clue, no two share a constraint, and every one of the 324
      constraints is met by one of them. */
  ghost predicate Covers(s: seq<seq<int>>, xs: seq<int>)
  {
    && IsBoard(s)
    && (forall k | 0 <= k < |xs| :: 0 <= xs[k] < 729 && !Cleared(s, xs[k]))
    && (forall k, k' | 0 <= k < k' < |xs| :: Apart(xs[k], xs[k']))
    && (forall h | 0 <= h < 324 :: Met(xs, h))
  }

  /** `B` is 9 by 9, every cell holds a digit, and the clues of `s` are kept. */
  ghost predicate Filled(B: seq<seq<int>>, s: seq<seq<int>>)
  {
    && IsBoard(s) && NineByNine(B)
    && (forall a, b | 0 <= a < 9 && 0 <= b < 9 :: Digit(B[a][b]) && (s[a][b] != 0 ==> B[a][b] == s[a][b]))
  }

  /** No row of the 9 by 9 board `B` holds a digit twice. */
  ghost predicate RowsDistinct(B: seq<seq<int>>)
    requires NineByNine(B)
  {
    forall a, b, b' | 0 <= a < 9 && 0 <= b < b' < 9 :: B[a][b] != B[a][b']
  }

  /** No column of the 9 by 9 board `B` holds a digit twice. */
  ghost predicate ColumnsDistinct(B: seq<seq<int>>)
    requires NineByNine(B)
  {
    forall a, a', b | 0 <= a < a' < 9 && 0 <= b < 9 :: B[a][b] != B[a'][b]
  }

  /** No 3 by 3 block of the 9 by 9 board `B` holds a digit twice. */
  ghost predicate BlocksDistinct(B: seq<seq<int>>)
    requires NineByNine(B)
  {
    forall a, b, a', b' | 0 <= a < 9 && 0 <= b < 9 && 0 <= a' < 9 && 0 <= b' < 9 &&
      Block(a + 1, b + 1) == Block(a' + 1, b' + 1) && (a, b) != (a', b') :: B[a][b] != B[a'][b']
  }

  /** `B` is a completed Sudoku board that keeps the clues of `s`. */
  ghost predicate Solved(B: seq<seq<int>>, s: seq<seq<int>>)
  {
    Filled(B, s) && RowsDistinct(B) && ColumnsDistinct(B) && BlocksDistinct(B)
  }

  /** Two rows of an exact cover that meet the same constraint are one row. */
  lemma Clash(s: seq<seq<int>>, xs: seq<int>, k: int, k': int, h: int)
    requires Covers(s, xs) && 0 <= k < |xs| && 0 <= k' < |xs|
    requires h in Constraints(xs[k]) && h in Constraints(xs[k'])
    ensures k == k'
  {
  }

  /** Cell (`a`, `b`) is met by exactly one row `xs[k]` of an exact cover, and the
      decoded board holds that row's digit there. */
  lemma CellEntry(s: seq<seq<int>>, xs: seq<int>, a: int, b: int) returns (k: int)
    requires Covers(s, xs) && 0 <= a < 9 && 0 <= b < 9
    ensures 0 <= k < |xs| && RowOf(xs[k]) == a + 1 && ColOf(xs[k]) == b + 1
    ensures Digit(ValOf(xs[k])) && BoardOf(Decoded(xs))[a][b] == ValOf(xs[k])
  {
    var h := 9 * a + b;
    assert h / 9 == a && h % 9 == b;
    assert 0 <= h < 324;
    assert Met(xs, h);
    k :| 0 <= k < |xs| && h in Constraints(xs[k]);
    GetIndexOnto(xs[k]);
    CellColumnsFirst(xs[k], h);
    var ps := Decoded(xs);
    forall k' | 0 <= k' < |ps| && ps[k'].r == a && ps[k'].c == b
      ensures k' == k
    {
      assert RowOf(xs[k']) == h / 9 + 1 && ColOf(xs[k']) == h % 9 + 1;
      CellColumnsFirst(xs[k'], h);
      Clash(s, xs, k, k', h);
    }
    CellValueOnly(ps, a, b, k);
  }

  /** The board decoded from an exact cover has a digit in every cell and keeps the clues. */
  lemma CoverFills(s: seq<seq<int>>, xs: seq<int>)
    requires Covers(s, xs)
    ensures Filled(BoardOf(Decoded(xs)), s)
  {
    var B := BoardOf(Decoded(xs));
    forall a, b | 0 <= a < 9 && 0 <= b < 9
      ensures Digit(B[a][b]) && (s[a][b] != 0 ==> B[a][b] == s[a][b])
    {
      var k := CellEntry(s, xs, a, b);
      assert !Cleared(s, xs[k]);
    }
  }

  /** Two cells of a row hold different digits: else their rows share a row constraint. */
  lemma CoverRows(s: seq<seq<int>>, xs: seq<int>)
    requires Covers(s, xs)
    ensures RowsDistinct(BoardOf(Decoded(xs)))
  {
    var B := BoardOf(Decoded(xs));
    forall a, b, b' | 0 <= a < 9 && 0 <= b < b' < 9 ensures B[a][b] != B[a][b'] {
      var k := CellEntry(s, xs, a, b);
      var k' := CellEntry(s, xs, a, b');
      if B[a][b] == B[a][b'] {
        Clash(s, xs, k, k', Constraints(xs[k])[1]);
      }
    }
  }

  /** Two cells of a column hold different digits: else their rows share a column constraint. */
  lemma CoverColumns(s: seq<seq<int>>, xs: seq<int>)
    requires Covers(s, xs)
    ensures ColumnsDistinct(BoardOf(Decoded(xs)))
  {
    var B := BoardOf(Decoded(xs));
    forall a, a', b | 0 <= a < a' < 9 && 0 <= b < 9 ensures B[a][b] != B[a'][b] {
      var k := CellEntry(s, xs, a, b);
      var k' := CellEntry(s, xs, a', b);
      if B[a][b] == B[a'][b] {
        Clash(s, xs, k, k', Constraints(xs[k])[2]);
      }
    }
  }

  /** Rows of one block and one digit meet the same block constraint. */
  lemma SameBlockColumn(x: int, y: int)
    requires Block(RowOf(x), ColOf(x)) == Block(RowOf(y), ColOf(y)) && ValOf(x) == ValOf(y)
    ensures Constraints(x)[3] == Constraints(y)[3]
  {
  }

  /** Two cells of a block hold different digits: else their rows share a block constraint. */
  lemma CoverBlocks(s: seq<seq<int>>, xs: seq<int>)
    requires Covers(s, xs)
    ensures BlocksDistinct(BoardOf(Decoded(xs)))
  {
    var B := BoardOf(Decoded(xs));
    forall a, b, a', b' | 0 <= a < 9 && 0 <= b < 9 && 0 <= a' < 9 && 0 <= b' < 9 &&
        Block(a + 1, b + 1) == Block(a' + 1, b' + 1) && (a, b) != (a', b')
      ensures B[a][b] != B[a'][b']
    {
      var k := CellEntry(s, xs, a, b);
      var k' := CellEntry(s, xs, a', b');
      if B[a][b] == B[a'][b'] {
        SameBlockColumn(xs[k], xs[k']);
        Clash(s, xs, k, k', Constraints(xs[k])[3]);
      }
    }
  }

  /** The board decoded from an exact cover of the clue matrix of `s` is a
      completed Sudoku that keeps the clues. */
  lemma CoverSolves(s: seq<seq<int>>, xs: seq<int>)
    requires Covers(s, xs)
    ensures Solved(BoardOf(Decoded(xs)), s)
  {
    CoverFills(s, xs);
    CoverRows(s, xs);
    CoverColumns(s, xs);
    CoverBlocks(s, xs);
  }
}
