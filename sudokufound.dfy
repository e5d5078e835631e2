/** The boards the search reports on the clue matrix of a Sudoku board, read
    by `parseBoard`, are exactly the completed boards that keep the clues, each
    reported once: `SudokuAnswers.AnswerSolves` gives one direction, the exact
    cover `SudokuComplete.SolvedCovers` builds from a completed board gives the
    other through the completeness of the search, and no two answers choose
    the same rows. */
module SudokuFound {
  import opened Rings
  import opened Matrix
  import opened Algorithm
  import opened SearchState
  import opened SearchFacts
  import opened Sudoku
  import opened SudokuSolve
  import opened SudokuAnswers
  import opened SudokuComplete
  import opened Handler
  import opened GridRows
  import Grid
  import BoardFacts
  import SearchComplete

  /** The board `parseBoard` of a `SudokuHandler(9)` reads from each answer of `S`. */
  ghost function Boards(sh: Shape, C: seq<int>, S: seq<seq<int>>): (bs: seq<seq<seq<int>>>)
    ensures |bs| == |S| && forall i | 0 <= i < |S| :: bs[i] == BoardOf(Placements(sh, C, S[i], 9))
  {
    seq(|S|, i requires 0 <= i < |S| => BoardOf(Placements(sh, C, S[i], 9)))
  }

  /** Every member of `As` is an answer of the search on `sh`. */
  ghost predicate Answers(sh: Shape, C: seq<int>, As: seq<seq<int>>)
  {
    forall A | A in As :: A in Solve(sh, C)
  }

  // ---------------------------------------------------------------------------
  // A board and the rows of its exact cover determine each other
  // ---------------------------------------------------------------------------

  /** Two exact covers of the clue matrix, the rows of the first among those of
      the second, are read as the same board: each cell is written by the one
      row of each cover that meets its cell constraint, and that row is shared. */
  lemma SameRowsSameBoard(s: seq<seq<int>>, xs: seq<int>, ys: seq<int>)
    requires Covers(s, xs) && Covers(s, ys) && forall x | x in xs :: x in ys
    ensures BoardOf(Decoded(xs)) == BoardOf(Decoded(ys))
  {
    forall a | 0 <= a < 9 ensures BoardOf(Decoded(xs))[a] == BoardOf(Decoded(ys))[a] {
      forall b | 0 <= b < 9 ensures BoardOf(Decoded(xs))[a][b] == BoardOf(Decoded(ys))[a][b] {
        var k := CellEntry(s, xs, a, b);
        var k' := CellEntry(s, ys, a, b);
        assert xs[k] in xs;
        var j :| 0 <= j < |ys| && ys[j] == xs[k];
        var h := 9 * a + b;
        assert h / 9 == a && h % 9 == b;
        CellColumnsFirst(ys[j], h);
        CellColumnsFirst(ys[k'], h);
        Clash(s, ys, j, k', h);
      }
    }
  }

  /** Two exact covers of the clue matrix read as the same board have the same
      rows: the row that writes cell (a, b) is `getIndex` of the cell and the
      digit the board holds there. */
  lemma SameBoardSameRows(s: seq<seq<int>>, xs: seq<int>, ys: seq<int>)
    requires Covers(s, xs) && Covers(s, ys) && BoardOf(Decoded(xs)) == BoardOf(Decoded(ys))
    ensures forall x | x in xs :: x in ys
  {
    forall x | x in xs ensures x in ys {
      var k :| 0 <= k < |xs| && xs[k] == x;
      GetIndexOnto(x);
      var a, b := RowOf(x) - 1, ColOf(x) - 1;
      var k1 := CellEntry(s, xs, a, b);
      var k2 := CellEntry(s, ys, a, b);
      var h := 9 * a + b;
      assert h / 9 == a && h % 9 == b;
      CellColumnsFirst(xs[k], h);
      CellColumnsFirst(xs[k1], h);
      Clash(s, xs, k, k1, h);
      GetIndexOnto(ys[k2]);
      assert ys[k2] == GetIndex(a + 1, b + 1, ValOf(x));
    }
  }

  // ---------------------------------------------------------------------------
  // An exact cover of the clue matrix, as entries of the dancing-links matrix
  // ---------------------------------------------------------------------------

  /** The entries of row ring `i` of a sound matrix lie in that row. */
  lemma RingEntries(g: Arena, sh: Shape, i: int)
    requires Sound(g, sh) && 0 <= i < |sh.rows|
    ensures forall y | y in sh.rows[i] :: InRow(sh, y) && sh.rowOf[y] == i
  {
    assert Valid(g, sh);
    assert RowOk(Row(g), g.C, sh, i);
  }

  /** The first entry of row ring `x`, or -1 for an empty ring. */
  ghost function Head(sh: Shape, x: int): int
  {
    if 0 <= x < |sh.rows| && sh.rows[x] != [] then sh.rows[x][0] else -1
  }

  /** The first entries of the row rings `xs`. */
  ghost function Heads(sh: Shape, xs: seq<int>): (E: seq<int>)
    ensures |E| == |xs| && forall t | 0 <= t < |xs| :: E[t] == Head(sh, xs[t])
  {
    seq(|xs|, t requires 0 <= t < |xs| => Head(sh, xs[t]))
  }

  /** A matrix row that keeps the clues has a non-empty ring in the Sudoku
      matrix: its constraints are 1s of the clue matrix. */
  lemma RowNonEmpty(g: Arena, s: seq<seq<int>>, x: int)
    requires IsBoard(s) && Sound(g, SudokuShape(s)) && 0 <= x < 729 && !Cleared(s, x)
    ensures |SudokuShape(s).rows| == 729 && SudokuShape(s).rows[x] != []
  {
    var sh := SudokuShape(s);
    ShapeSizes(s);
    RowColumnNames(g, CoverGrid(s), 324, x);
    ConstraintsOrdered(x);
    var h := Constraints(x)[0];
    ClueRowOnes(s, x, h);
    assert h in Names(g.C, sh.rows[x]);
  }

  /** The first entry of the ring of a matrix row that keeps the clues lies in
      that row, whose columns are the row's constraints, each plus one. */
  lemma RowHead(g: Arena, s: seq<seq<int>>, x: int)
    requires IsBoard(s) && Sound(g, SudokuShape(s)) && 0 <= x < 729 && !Cleared(s, x)
    ensures var sh := SudokuShape(s); var y := Head(sh, x);
      InRow(sh, y) && sh.rowOf[y] == x && ColumnsAre(sh, g.C, y, Constraints(x))
  {
    var sh := SudokuShape(s);
    RowNonEmpty(g, s, x);
    var y := sh.rows[x][0];
    RingEntries(g, sh, x);
    assert y in sh.rows[x];
    EntryRead(g, s, y);
  }

  /** The columns of `y` are live headers when they are the constraints of a
      matrix row, each plus one, and the headers are 1..324. */
  lemma ColumnsLive(sh: Shape, C: seq<int>, y: int, x: int)
    requires 0 <= x < 729 && sh.active == Grid.Headers(324) && ColumnsAre(sh, C, y, Constraints(x))
    ensures RowColumns(sh, C, y) <= Elems(sh.active)
  {
    ConstraintsOrdered(x);
    forall c | c in RowColumns(sh, C, y) ensures c in Elems(sh.active) {
      assert c - 1 in Constraints(x);
      assert sh.active[c - 1] == c;
    }
  }

  /** Entries `E` of the rows `xs`, whose columns are those rows' constraints
      plus one, are an exact cover of the headers 1..324 when `xs` is an exact
      cover of the 324 constraints. */
  lemma HeadsExact(sh: Shape, C: seq<int>, xs: seq<int>, E: seq<int>)
    requires sh.active == Grid.Headers(324) && |E| == |xs|
    requires forall t | 0 <= t < |xs| :: 0 <= xs[t] < 729 && InRow(sh, E[t]) && ColumnsAre(sh, C, E[t], Constraints(xs[t]))
    requires forall t, t' | 0 <= t < t' < |xs| :: Apart(xs[t], xs[t'])
    requires forall h | 0 <= h < 324 :: Met(xs, h)
    ensures ExactCover(sh, C, E, Elems(sh.active))
  {
    forall t | 0 <= t < |xs| ensures RowColumns(sh, C, E[t]) <= Elems(sh.active) {
      ColumnsLive(sh, C, E[t], xs[t]);
    }
    forall t, t' | 0 <= t < t' < |xs| ensures RowColumns(sh, C, E[t]) !! RowColumns(sh, C, E[t']) {
      forall c | c in RowColumns(sh, C, E[t]) ensures c !in RowColumns(sh, C, E[t']) {
        assert c - 1 in Constraints(xs[t]);
      }
    }
    forall c | c in Elems(sh.active) ensures exists t | 0 <= t < |E| :: c in RowColumns(sh, C, E[t]) {
      var i :| 0 <= i < 324 && sh.active[i] == c;
      assert Met(xs, i);
      var t :| 0 <= t < |xs| && i in Constraints(xs[t]);
      assert c - 1 == i;
      assert c in RowColumns(sh, C, E[t]);
    }
  }

  /** The first entries of the rows `xs` of an exact cover of the clue matrix
      are an exact cover of the 324 columns of the Sudoku matrix. */
  lemma HeadsCover(g: Arena, s: seq<seq<int>>, xs: seq<int>)
    requires Covers(s, xs) && Sound(g, SudokuShape(s))
    ensures var sh := SudokuShape(s); var E := Heads(sh, xs);
      && ExactCover(sh, g.C, E, Elems(sh.active))
      && forall t | 0 <= t < |xs| :: InRow(sh, E[t]) && sh.rowOf[E[t]] == xs[t]
  {
    var sh := SudokuShape(s);
    var E := Heads(sh, xs);
    ShapeSizes(s);
    forall t | 0 <= t < |xs|
      ensures InRow(sh, E[t]) && sh.rowOf[E[t]] == xs[t] && ColumnsAre(sh, g.C, E[t], Constraints(xs[t]))
    {
      RowHead(g, s, xs[t]);
    }
    HeadsExact(sh, g.C, xs, E);
  }

  // ---------------------------------------------------------------------------
  // Every solution is reported, once
  // ---------------------------------------------------------------------------

  /** The matrix rows an answer chooses are the rows of its entries. */
  lemma RowSetRows(sh: Shape, A: seq<int>)
    requires forall k | 0 <= k < |A| :: InRow(sh, A[k])
    ensures forall x :: x in SearchComplete.RowSet(sh, A) <==> x in RowsOf(sh, A)
  {
    forall x ensures x in SearchComplete.RowSet(sh, A) <==> x in RowsOf(sh, A) {
      if x in RowsOf(sh, A) {
        var k :| 0 <= k < |A| && RowsOf(sh, A)[k] == x;
        assert InRow(sh, A[k]);
      }
      if x in SearchComplete.RowSet(sh, A) {
        var k :| 0 <= k < |A| && 0 <= A[k] < |sh.rowOf| && sh.rowOf[A[k]] == x;
        assert RowsOf(sh, A)[k] == x;
      }
    }
  }

  /** Rows chosen by `A` are among `xs` when `A` chooses the same rows as the
      entries `E` of the rows `xs`. */
  lemma RowsWithin(sh: Shape, A: seq<int>, E: seq<int>, xs: seq<int>)
    requires forall k | 0 <= k < |A| :: InRow(sh, A[k])
    requires |E| == |xs| && forall t | 0 <= t < |xs| :: InRow(sh, E[t]) && sh.rowOf[E[t]] == xs[t]
    requires SearchComplete.RowSet(sh, A) == SearchComplete.RowSet(sh, E)
    ensures forall x | x in RowsOf(sh, A) :: x in xs
  {
    RowSetRows(sh, A);
    RowSetRows(sh, E);
    forall x | x in RowsOf(sh, A) ensures x in xs {
      var t :| 0 <= t < |E| && RowsOf(sh, E)[t] == x;
      assert x == xs[t];
    }
  }

  /** An exact cover `xs` of the clue matrix is met by an answer of the search
      on the Sudoku matrix that chooses only rows of `xs`. */
  lemma CoverAnswer(g: Arena, s: seq<seq<int>>, xs: seq<int>) returns (A: seq<int>)
    requires Covers(s, xs) && Sound(g, SudokuShape(s))
    ensures A in Solve(SudokuShape(s), g.C)
    ensures forall x | x in RowsOf(SudokuShape(s), A) :: x in xs
  {
    var cs := Grid.Ones(CoverGrid(s), 324, 729);
    var sh := SudokuShape(s);
    assert sh == Grid.ShapeOf(324, 729, cs);
    HeadsCover(g, s, xs);
    var E := Heads(sh, xs);
    BoardFacts.OnesOk(CoverGrid(s), 324, 729);
    SearchComplete.BuiltComplete(g, 324, 729, cs, E);
    A :| A in Solve(sh, g.C) && SearchComplete.RowSet(sh, A) == SearchComplete.RowSet(sh, E);
    SolveCovers(g, sh, sh);
    RowsWithin(sh, A, E, xs);
  }

  /** An answer of the search on the Sudoku matrix is read as the completed
      board `B` that keeps the clues. */
  lemma SolvedAnswer(g: Arena, s: seq<seq<int>>, B: seq<seq<int>>) returns (A: seq<int>)
    requires IsBoard(s) && Sound(g, SudokuShape(s)) && Solved(B, s)
    ensures A in Solve(SudokuShape(s), g.C)
    ensures BoardOf(Placements(SudokuShape(s), g.C, A, 9)) == B
  {
    var sh := SudokuShape(s);
    var xs := BoardRows(B);
    SolvedCovers(B, s);
    A := CoverAnswer(g, s, xs);
    SolveCovers(g, sh, sh);
    AnswerCovers(g, s, A);
    SameRowsSameBoard(s, RowsOf(sh, A), xs);
  }

  /** The board read from an answer of `S` is among the boards of `S`. */
  lemma InBoards(sh: Shape, C: seq<int>, S: seq<seq<int>>, A: seq<int>)
    requires A in S
    ensures BoardOf(Placements(sh, C, A, 9)) in Boards(sh, C, S)
  {
    var i :| 0 <= i < |S| && S[i] == A;
    assert Boards(sh, C, S)[i] == BoardOf(Placements(sh, C, A, 9));
  }

  /** The board read from an answer of the search on the Sudoku matrix of `s`
      is a completed board that keeps the clues; the answer's entries are data
      nodes whose placements name rows of the board. */
  lemma SolvedAnswerBoard(g: Arena, s: seq<seq<int>>, A: seq<int>)
    requires IsBoard(s) && Sound(g, SudokuShape(s)) && A in Solve(SudokuShape(s), g.C)
    ensures Solved(BoardOf(Placements(SudokuShape(s), g.C, A, 9)), s)
    ensures forall k | 0 <= k < |A| :: SudokuShape(s).m < A[k] < SudokuShape(s).n
    ensures forall k | 0 <= k < |A| :: Placements(SudokuShape(s), g.C, A, 9)[k].r < 9
  {
    SolveCovers(g, SudokuShape(s), SudokuShape(s));
    AnswerSolves(g, s, A);
  }

  /** Every completed board that keeps the clues of `s` is read from some
      answer the search reports on the Sudoku matrix of `s`. */
  lemma SolutionFound(g: Arena, s: seq<seq<int>>, B: seq<seq<int>>)
    requires IsBoard(s) && Sound(g, SudokuShape(s)) && Solved(B, s)
    ensures B in Boards(SudokuShape(s), g.C, Solve(SudokuShape(s), g.C))
  {
    var A := SolvedAnswer(g, s, B);
    InBoards(SudokuShape(s), g.C, Solve(SudokuShape(s), g.C), A);
  }

  /** Two different answers of the search on the Sudoku matrix of `s` are read
      as different boards: equal boards would mean equal rows, which the search
      never chooses twice. */
  lemma SolutionsOnce(g: Arena, s: seq<seq<int>>)
    requires IsBoard(s) && Sound(g, SudokuShape(s))
    ensures var bs := Boards(SudokuShape(s), g.C, Solve(SudokuShape(s), g.C));
      forall i, j | 0 <= i < j < |bs| :: bs[i] != bs[j]
  {
    var sh := SudokuShape(s);
    var S := Solve(sh, g.C);
    var bs := Boards(sh, g.C, S);
    SearchComplete.SolveDistinct(g, sh, sh);
    SolveCovers(g, sh, sh);
    forall i, j | 0 <= i < j < |bs| ensures bs[i] != bs[j] {
      if bs[i] == bs[j] {
        assert S[i] in S && S[j] in S;
        AnswerCovers(g, s, S[i]);
        AnswerCovers(g, s, S[j]);
        var xs, ys := RowsOf(sh, S[i]), RowsOf(sh, S[j]);
        SameBoardSameRows(s, xs, ys);
        SameBoardSameRows(s, ys, xs);
        RowSetRows(sh, S[i]);
        RowSetRows(sh, S[j]);
        assert false;
      }
    }
  }

  /** The boards read from the answers of the search on the Sudoku matrix of
      `s` are completed boards that keep the clues; every such board is among
      them; and none appears twice. */
  lemma BoardsAreSolutions(g: Arena, s: seq<seq<int>>)
    requires IsBoard(s) && Sound(g, SudokuShape(s))
    ensures var bs := Boards(SudokuShape(s), g.C, Solve(SudokuShape(s), g.C));
      && (forall i | 0 <= i < |bs| :: Solved(bs[i], s))
      && (forall B | Solved(B, s) :: B in bs)
      && (forall i, j | 0 <= i < j < |bs| :: bs[i] != bs[j])
  {
    var sh := SudokuShape(s);
    var S := Solve(sh, g.C);
    forall i | 0 <= i < |S| ensures Solved(Boards(sh, g.C, S)[i], s) {
      assert S[i] in S;
      SolvedAnswerBoard(g, s, S[i]);
    }
    forall B | Solved(B, s) ensures B in Boards(sh, g.C, S) {
      SolutionFound(g, s, B);
    }
    SolutionsOnce(g, s);
  }
}
