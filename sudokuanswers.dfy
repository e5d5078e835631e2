/** The answers of the search on the clue matrix of a board, read as Sudoku
    rows: each entry's row ring lists the four constraint columns of its matrix
    row in increasing order, so `parseBoard` reads off exactly the cell and the
    digit of that row, and an exact cover of the 324 columns is an exact cover
    of the Sudoku constraints. */
module SudokuAnswers {
  import opened Rings
  import opened Matrix
  import opened Algorithm
  import opened SearchState
  import opened Grid
  import opened BoardFacts
  import opened Sudoku
  import opened Handler
  import opened SudokuSolve
  import opened GridRows

  /** The 729 by 324 matrix `makeExactCoverGrid` builds for the board `s`, as rows. */
  function CoverGrid(s: seq<seq<int>>): (M: seq<seq<int>>)
    requires IsBoard(s)
    ensures |M| == 729 && Rect(M, 324)
  {
    seq(729, x => seq(324, h => ClueEntry(s, x, h)))
  }

  /** The matrix `makeDLXBoard` builds from the clue matrix of `s`. */
  ghost function SudokuShape(s: seq<seq<int>>): Shape
    requires IsBoard(s)
  {
    ShapeOf(324, 729, Ones(CoverGrid(s), 324, 729))
  }

  /** The matrix rows of the entries `A`. */
  ghost function RowsOf(sh: Shape, A: seq<int>): seq<int>
  {
    seq(|A|, k requires 0 <= k < |A| => if 0 <= A[k] < |sh.rowOf| then sh.rowOf[A[k]] else -1)
  }

  // ---------------------------------------------------------------------------
  // The rows of the Sudoku matrix
  // ---------------------------------------------------------------------------

  /** The sizes of the Sudoku matrix. */
  lemma ShapeSizes(s: seq<seq<int>>)
    requires IsBoard(s)
    ensures var sh := SudokuShape(s);
      && sh.m == 324 && |sh.rows| == 729 && sh.active == Headers(324)
  {
  }

  /** A 1 in row `i` of the clue matrix means the row keeps the clues; the 1s of
      a row that keeps them are its constraints. */
  lemma ClueRowOnes(s: seq<seq<int>>, i: int, h: int)
    requires IsBoard(s) && 0 <= i < 729
    ensures 0 <= h < 324 && CoverGrid(s)[i][h] == 1 ==> !Cleared(s, i)
    ensures !Cleared(s, i) ==> (0 <= h < 324 && CoverGrid(s)[i][h] == 1 <==> h in Constraints(i))
  {
    ConstraintsOrdered(i);
  }

  /** The constraints of a row increase. */
  lemma ConstraintsIncrease(x: int)
    requires 0 <= x < 729
    ensures Increasing(Constraints(x))
  {
    ConstraintsOrdered(x);
  }

  /** The column names along the row ring of a non-empty matrix row `i` are its
      four constraints in increasing order, and the row keeps the clues. */
  lemma RowNames(g: Arena, s: seq<seq<int>>, i: int)
    requires IsBoard(s) && Sound(g, SudokuShape(s)) && 0 <= i < 729 && SudokuShape(s).rows[i] != []
    ensures !Cleared(s, i) && Names(g.C, SudokuShape(s).rows[i]) == Constraints(i)
  {
    var M := CoverGrid(s);
    RowColumnNames(g, M, 324, i);
    var N := Names(g.C, SudokuShape(s).rows[i]);
    assert N[0] in N;
    ClueRowOnes(s, i, N[0]);
    forall h ensures h in N <==> h in Constraints(i) {
      ClueRowOnes(s, i, h);
    }
    ConstraintsIncrease(i);
    SortedEqual(N, Constraints(i));
  }

  /** The first two constraints of row `x` give its cell and its digit. */
  lemma ConstraintsRead(x: int)
    requires 0 <= x < 729
    ensures var K := Constraints(x); Placement(K[0] / 9, K[0] % 9, K[1] % 9 + 1) == Decode(x)
  {
    GetIndexOnto(x);
    var r, c, v := RowOf(x), ColOf(x), ValOf(x);
    NineSplit(r - 1, c - 1);
    NineSplit(r + 8, v - 1);
  }

  /** Division by 9 reads back the quotient and remainder of `9 * q + m`. */
  lemma NineSplit(q: int, m: int)
    requires 0 <= m < 9
    ensures (9 * q + m) / 9 == q && (9 * q + m) % 9 == m
  {
  }

  /** The matrix row of an entry `y` of the Sudoku matrix keeps the clues, and
      the names along its row ring are the row's constraints. */
  lemma EntryRow(g: Arena, s: seq<seq<int>>, y: int)
    requires IsBoard(s) && Sound(g, SudokuShape(s)) && InRow(SudokuShape(s), y)
    ensures var sh := SudokuShape(s); var i := sh.rowOf[y];
      && 0 <= i < 729 && !Cleared(s, i) && sh.m < y < sh.n
      && Names(g.C, sh.rows[i]) == Constraints(i)
      && forall z | z in sh.rows[i] :: 0 <= z < |g.C|
  {
    ShapeSizes(s);
    RowInArena(g, SudokuShape(s), y);
    RowNames(g, s, SudokuShape(s).rowOf[y]);
  }

  /** `parseBoard` decodes matrix row `i` from its entry `y`, when the names along
      the row are the row's constraints. */
  lemma EntryDecode(C: seq<int>, sh: Shape, y: int, i: int)
    requires InRow(sh, y) && 0 <= i < 729 && Names(C, sh.rows[sh.rowOf[y]]) == Constraints(i)
    ensures ReadRow(Names(C, RowFrom(sh, y)), 9) == Decode(i)
  {
    ConstraintsIncrease(i);
    RotatedRead(C, sh, y, Constraints(i), 9);
    ConstraintsRead(i);
  }

  /** An entry `y` of the Sudoku matrix: its matrix row keeps the clues,
      `parseBoard` decodes that row from it, and the row's columns are the
      row's constraints, each plus one. */
  lemma EntryRead(g: Arena, s: seq<seq<int>>, y: int)
    requires IsBoard(s) && Sound(g, SudokuShape(s)) && InRow(SudokuShape(s), y)
    ensures var sh := SudokuShape(s); var i := sh.rowOf[y];
      && 0 <= i < 729 && !Cleared(s, i) && sh.m < y < sh.n
      && ReadRow(Names(g.C, RowFrom(sh, y)), 9) == Decode(i)
      && ColumnsAre(sh, g.C, y, Constraints(i))
  {
    var sh := SudokuShape(s);
    var i := sh.rowOf[y];
    EntryRow(g, s, y);
    EntryDecode(g.C, sh, y, i);
    RowColumnsNames(sh, g.C, y, Constraints(i));
  }

  /** Each entry of an exact cover found on the Sudoku matrix of `s` is decoded
      to its matrix row, which keeps the clues and whose constraints are the
      entry's columns, each less one. */
  lemma AnswerEntries(g: Arena, s: seq<seq<int>>, A: seq<int>)
    requires IsBoard(s) && Sound(g, SudokuShape(s))
    requires forall k | 0 <= k < |A| :: InRow(SudokuShape(s), A[k])
    ensures var sh := SudokuShape(s); var xs := RowsOf(sh, A);
      forall k | 0 <= k < |A| ::
        && 0 <= xs[k] < 729 && !Cleared(s, xs[k]) && sh.m < A[k] < sh.n
        && Placements(sh, g.C, A, 9)[k] == Decode(xs[k])
        && ColumnsAre(sh, g.C, A[k], Constraints(xs[k]))
  {
    var sh := SudokuShape(s);
    forall k | 0 <= k < |A|
      ensures var xs := RowsOf(sh, A);
        && 0 <= xs[k] < 729 && !Cleared(s, xs[k]) && sh.m < A[k] < sh.n
        && Placements(sh, g.C, A, 9)[k] == Decode(xs[k])
        && ColumnsAre(sh, g.C, A[k], Constraints(xs[k]))
    {
      EntryRead(g, s, A[k]);
    }
  }

  /** An exact cover found on the Sudoku matrix of `s` decodes, entry by entry,
      to the cells and digits of its matrix rows, and those rows are an exact
      cover of the Sudoku constraints that keeps the clues. */
  lemma AnswerCovers(g: Arena, s: seq<seq<int>>, A: seq<int>)
    requires IsBoard(s) && Sound(g, SudokuShape(s))
    requires ExactCover(SudokuShape(s), g.C, A, Elems(SudokuShape(s).active))
    ensures Placements(SudokuShape(s), g.C, A, 9) == Decoded(RowsOf(SudokuShape(s), A))
    ensures Covers(s, RowsOf(SudokuShape(s), A))
    ensures forall k | 0 <= k < |A| :: SudokuShape(s).m < A[k] < SudokuShape(s).n
  {
    var sh := SudokuShape(s);
    var xs := RowsOf(sh, A);
    ShapeSizes(s);
    AnswerEntries(g, s, A);
    CoverApart(sh, g.C, A, Elems(sh.active), xs);
    CoverMeets(sh, g.C, A, xs);
  }

  /** Entries of an exact cover whose columns are the constraints of the rows
      `xs`, each plus one, give rows that share no constraint. */
  lemma CoverApart(sh: Shape, C: seq<int>, A: seq<int>, hs: set<int>, xs: seq<int>)
    requires ExactCover(sh, C, A, hs) && |xs| == |A|
    requires forall k | 0 <= k < |A| :: ColumnsAre(sh, C, A[k], Constraints(xs[k]))
    ensures forall k, k' | 0 <= k < k' < |xs| :: Apart(xs[k], xs[k'])
  {
    forall k, k' | 0 <= k < k' < |xs| ensures Apart(xs[k], xs[k']) {
      forall h | h in Constraints(xs[k]) ensures h !in Constraints(xs[k']) {
        assert h + 1 in RowColumns(sh, C, A[k]);
        assert RowColumns(sh, C, A[k]) !! RowColumns(sh, C, A[k']);
      }
    }
  }

  /** Entries of an exact cover of the 324 columns, whose columns are the
      constraints of the rows `xs`, each plus one, meet every constraint. */
  lemma CoverMeets(sh: Shape, C: seq<int>, A: seq<int>, xs: seq<int>)
    requires sh.active == Headers(324) && ExactCover(sh, C, A, Elems(sh.active)) && |xs| == |A|
    requires forall k | 0 <= k < |A| :: ColumnsAre(sh, C, A[k], Constraints(xs[k]))
    ensures forall h | 0 <= h < 324 :: Met(xs, h)
  {
    forall h | 0 <= h < 324 ensures Met(xs, h) {
      assert h + 1 == Headers(324)[h];
      assert h + 1 in Elems(sh.active);
      var k :| 0 <= k < |A| && h + 1 in RowColumns(sh, C, A[k]);
      assert h in Constraints(xs[k]);
    }
  }

  /** Every answer the search reports on the Sudoku matrix of `s` decodes to a
      completed Sudoku board that keeps the clues of `s`. */
  lemma AnswerSolves(g: Arena, s: seq<seq<int>>, A: seq<int>)
    requires IsBoard(s) && Sound(g, SudokuShape(s))
    requires ExactCover(SudokuShape(s), g.C, A, Elems(SudokuShape(s).active))
    ensures Solved(BoardOf(Placements(SudokuShape(s), g.C, A, 9)), s)
    ensures forall k | 0 <= k < |A| :: SudokuShape(s).m < A[k] < SudokuShape(s).n
    ensures forall k | 0 <= k < |A| :: 0 <= Placements(SudokuShape(s), g.C, A, 9)[k].r < 9
  {
    var xs := RowsOf(SudokuShape(s), A);
    AnswerCovers(g, s, A);
    CoverSolves(s, xs);
    forall k | 0 <= k < |A| ensures 0 <= Placements(SudokuShape(s), g.C, A, 9)[k].r < 9 {
      GetIndexOnto(xs[k]);
    }
  }
}
