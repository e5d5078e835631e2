/** `sudokuExactCover` and `makeExactCoverGrid`: the methods of `SudokuDLX` that
    fill a 729 by 324 array. */
module SudokuCover {
  import opened Sudoku

  /** The array holds the fill `Written(_, _, hBase, k)`. */
  ghost predicate Progress(R: array2<int>, hBase: int, k: int)
    reads R
  {
    && R.Length0 == 729 && R.Length1 == 324
    && forall x, h | 0 <= x < 729 && 0 <= h < 324 :: R[x, h] == Written(x, h, hBase, k)
  }

  /** One store `R[x0][hBase] = 1` of `sudokuExactCover`, writing the row at
      position `k` of column `hBase`. */
  method Mark(R: array2<int>, x0: int, hBase: int, k: int, ghost r: int, ghost c: int, ghost v: int)
    requires Progress(R, hBase, k)
    requires Digit(r) && Digit(c) && Digit(v) && x0 == GetIndex(r, c, v)
    requires 0 <= hBase < 324 && Meets(hBase, r, c, v) && Position(hBase, r, c, v) == k
    modifies R
    ensures Progress(R, hBase, k + 1)
  {
    Placed(hBase, r, c, v);
    WriteNext(x0, hBase, k);
    R[x0, hBase] := 1;
  }

  /** `sudokuExactCover`: the exact cover matrix of the empty board, whose entry
      at (x, h) is 1 exactly when `h` is one of the four constraints of the
      value and cell that row `x` stands for. */
  method SudokuExactCover() returns (R: array2<int>)
    ensures fresh(R) && R.Length0 == 729 && R.Length1 == 324
    ensures forall x, h | 0 <= x < 729 && 0 <= h < 324 :: R[x, h] == Entry(x, h)
  {
    R := new int[729, 324]((_, _) => 0);
    NothingWritten();
    var hBase := 0;
    hBase := CellConstraints(R, hBase);
    hBase := RowConstraints(R, hBase);
    hBase := ColumnConstraints(R, hBase);
    hBase := BlockConstraints(R, hBase);
  }

  /** The first loop nest of `sudokuExactCover`: columns 0..80, cell (r, c) is
      filled. */
  method CellConstraints(R: array2<int>, hBase0: int) returns (hBase: int)
    requires hBase0 == 0 && Progress(R, hBase0, 0)
    modifies R
    ensures hBase == 81 && Progress(R, hBase, 0)
  {
    hBase := hBase0;
    var r := 1;
    while r <= 9
      invariant 1 <= r <= 10 && hBase == 9 * (r - 1) && Progress(R, hBase, 0)
    {
      var c := 1;
      while c <= 9
        invariant 1 <= c <= 10 && hBase == 9 * (r - 1) + (c - 1) && Progress(R, hBase, 0)
      {
        var n := 1;
        while n <= 9
          invariant 1 <= n <= 10 && Progress(R, hBase, n - 1)
        {
          Mark(R, GetIndex(r, c, n), hBase, n - 1, r, c, n);
          n := n + 1;
        }
        ColumnDone(hBase);
        c := c + 1;
        hBase := hBase + 1;
      }
      r := r + 1;
    }
  }

  /** The second loop nest: columns 81..161, row r holds value n. */
  method RowConstraints(R: array2<int>, hBase0: int) returns (hBase: int)
    requires hBase0 == 81 && Progress(R, hBase0, 0)
    modifies R
    ensures hBase == 162 && Progress(R, hBase, 0)
  {
    hBase := hBase0;
    var r := 1;
    while r <= 9
      invariant 1 <= r <= 10 && hBase == 81 + 9 * (r - 1) && Progress(R, hBase, 0)
    {
      var n := 1;
      while n <= 9
        invariant 1 <= n <= 10 && hBase == 81 + 9 * (r - 1) + (n - 1) && Progress(R, hBase, 0)
      {
        var c1 := 1;
        while c1 <= 9
          invariant 1 <= c1 <= 10 && Progress(R, hBase, c1 - 1)
        {
          Mark(R, GetIndex(r, c1, n), hBase, c1 - 1, r, c1, n);
          c1 := c1 + 1;
        }
        ColumnDone(hBase);
        n := n + 1;
        hBase := hBase + 1;
      }
      r := r + 1;
    }
  }

  /** The third loop nest: columns 162..242, column c holds value n. */
  method ColumnConstraints(R: array2<int>, hBase0: int) returns (hBase: int)
    requires hBase0 == 162 && Progress(R, hBase0, 0)
    modifies R
    ensures hBase == 243 && Progress(R, hBase, 0)
  {
    hBase := hBase0;
    var c := 1;
    while c <= 9
      invariant 1 <= c <= 10 && hBase == 162 + 9 * (c - 1) && Progress(R, hBase, 0)
    {
      var n := 1;
      while n <= 9
        invariant 1 <= n <= 10 && hBase == 162 + 9 * (c - 1) + (n - 1) && Progress(R, hBase, 0)
      {
        var r1 := 1;
        while r1 <= 9
          invariant 1 <= r1 <= 10 && Progress(R, hBase, r1 - 1)
        {
          Mark(R, GetIndex(r1, c, n), hBase, r1 - 1, r1, c, n);
          r1 := r1 + 1;
        }
        ColumnDone(hBase);
        n := n + 1;
        hBase := hBase + 1;
      }
      c := c + 1;
    }
  }

  /** The fourth loop nest: columns 243..323, the block with top left cell
      (br, bc) holds value n. */
  method BlockConstraints(R: array2<int>, hBase0: int) returns (hBase: int)
    requires hBase0 == 243 && Progress(R, hBase0, 0)
    modifies R
    ensures hBase == 324 && Progress(R, hBase, 0)
  {
    hBase := hBase0;
    var br := 1;
    while br <= 9
      invariant 1 <= br <= 10 && br % 3 == 1 && hBase == 243 + 9 * (br - 1) && Progress(R, hBase, 0)
    {
      var bc := 1;
      while bc <= 9
        invariant 1 <= bc <= 10 && bc % 3 == 1
        invariant hBase == 243 + 9 * (br - 1) + 3 * (bc - 1) && Progress(R, hBase, 0)
      {
        var n := 1;
        while n <= 9
          invariant 1 <= n <= 10 && hBase == 243 + 9 * (br - 1) + 3 * (bc - 1) + (n - 1)
          invariant Progress(R, hBase, 0)
        {
          BlockColumnRows(R, br, bc, n, hBase);
          ColumnDone(hBase);
          n := n + 1;
          hBase := hBase + 1;
        }
        bc := bc + 3;
      }
      br := br + 3;
    }
  }

  /** The two innermost loops of the fourth loop nest: the nine cells of the
      block with top left cell (br, bc), row by row, get a 1 in column `hBase`. */
  method BlockColumnRows(R: array2<int>, br: int, bc: int, n: int, hBase: int)
    requires br in {1, 4, 7} && bc in {1, 4, 7} && Digit(n)
    requires hBase == 243 + 9 * (br - 1) + 3 * (bc - 1) + (n - 1) && Progress(R, hBase, 0)
    modifies R
    ensures Progress(R, hBase, 9)
  {
    var rDelta := 0;
    while rDelta < 3
      invariant 0 <= rDelta <= 3 && Progress(R, hBase, 3 * rDelta)
    {
      var cDelta := 0;
      while cDelta < 3
        invariant 0 <= cDelta <= 3 && Progress(R, hBase, 3 * rDelta + cDelta)
      {
        BlockCell(br, bc, n, rDelta, cDelta);
        Mark(R, GetIndex(br + rDelta, bc + cDelta, n), hBase, 3 * rDelta + cDelta, br + rDelta, bc + cDelta, n);
        cDelta := cDelta + 1;
      }
      rDelta := rDelta + 1;
    }
  }

  /** `Arrays.fill(R[x], val)`: row `x` becomes all `val`. */
  method Fill(R: array2<int>, x: int, val: int)
    requires 0 <= x < R.Length0
    modifies R
    ensures forall y, h | 0 <= y < R.Length0 && 0 <= h < R.Length1 :: R[y, h] == if y == x then val else old(R[y, h])
  {
    var h := 0;
    while h < R.Length1
      invariant 0 <= h <= R.Length1
      invariant forall y, h' | 0 <= y < R.Length0 && 0 <= h' < R.Length1 ::
        R[y, h'] == if y == x && h' < h then val else old(R[y, h'])
    {
      R[x, h] := val;
      h := h + 1;
    }
  }

  /** The rows before `done` that contradict a clue of `s` are cleared. */
  ghost predicate Cleaned(R: array2<int>, s: seq<seq<int>>, done: int)
    requires IsBoard(s)
    reads R
  {
    && R.Length0 == 729 && R.Length1 == 324
    && forall x, h | 0 <= x < 729 && 0 <= h < 324 :: R[x, h] == if x < done && Cleared(s, x) then 0 else Entry(x, h)
  }

  /** `makeExactCoverGrid(sudoku)`: the empty-board matrix with every row that
      contradicts a clue cleared to 0; an empty cell clears nothing. */
  method MakeExactCoverGrid(sudoku: seq<seq<int>>) returns (R: array2<int>)
    requires IsBoard(sudoku)
    ensures fresh(R) && R.Length0 == 729 && R.Length1 == 324
    ensures forall x, h | 0 <= x < 729 && 0 <= h < 324 :: R[x, h] == ClueEntry(sudoku, x, h)
  {
    R := SudokuExactCover();
    var i := 1;
    while i <= 9
      invariant 1 <= i <= 10 && Cleaned(R, sudoku, GetIndex(i, 1, 1))
    {
      var j := 1;
      while j <= 9
        invariant 1 <= j <= 10 && Cleaned(R, sudoku, GetIndex(i, j, 1))
      {
        ClueCell(R, sudoku, i, j);
        j := j + 1;
      }
      i := i + 1;
    }
  }

  /** The body of `makeExactCoverGrid`'s loop for cell (i, j): when it holds a
      clue `n`, the rows of the other eight values are cleared. */
  method ClueCell(R: array2<int>, sudoku: seq<seq<int>>, i: int, j: int)
    requires IsBoard(sudoku) && Digit(i) && Digit(j) && Cleaned(R, sudoku, GetIndex(i, j, 1))
    modifies R
    ensures Cleaned(R, sudoku, GetIndex(i, j, 1) + 9)
  {
    var n := sudoku[i - 1][j - 1];
    if n != 0 {
      var num := 1;
      while num <= 9
        invariant 1 <= num <= 10 && Cleaned(R, sudoku, GetIndex(i, j, num))
      {
        ClueRow(sudoku, i, j, num);
        if num != n {
          ClearRow(R, sudoku, GetIndex(i, j, num));
        } else {
          KeepRow(R, sudoku, GetIndex(i, j, num));
        }
        num := num + 1;
      }
    } else {
      KeepCell(R, sudoku, i, j);
    }
  }

  /** `Arrays.fill(R[x0], 0)` on the next row, which contradicts a clue. */
  method ClearRow(R: array2<int>, sudoku: seq<seq<int>>, x0: int)
    requires IsBoard(sudoku) && 0 <= x0 < 729 && Cleaned(R, sudoku, x0) && Cleared(sudoku, x0)
    modifies R
    ensures Cleaned(R, sudoku, x0 + 1)
  {
    Fill(R, x0, 0);
  }

  /** An empty cell clears none of its nine rows. */
  lemma KeepCell(R: array2<int>, sudoku: seq<seq<int>>, i: int, j: int)
    requires IsBoard(sudoku) && Digit(i) && Digit(j) && sudoku[i - 1][j - 1] == 0
    requires Cleaned(R, sudoku, GetIndex(i, j, 1))
    ensures Cleaned(R, sudoku, GetIndex(i, j, 1) + 9)
  {
    forall x | GetIndex(i, j, 1) <= x < GetIndex(i, j, 1) + 9 ensures !Cleared(sudoku, x) {
      CellRows(i, j, x);
    }
  }

  /** A row that contradicts no clue is left as it is. */
  lemma KeepRow(R: array2<int>, sudoku: seq<seq<int>>, x0: int)
    requires IsBoard(sudoku) && 0 <= x0 < 729 && Cleaned(R, sudoku, x0) && !Cleared(sudoku, x0)
    ensures Cleaned(R, sudoku, x0 + 1)
  {
  }
}
