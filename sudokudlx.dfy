/** `SudokuDLX.runSolver` and `getSolutions`: build the clue matrix of a board,
    hand it to a `DLX` solver, and read the solver's answers as boards with a
    `SudokuHandler(9)`; `runSolver` stores them in a `SolutionsAnalyzer` and
    analyses them. The answers are read once the search is over: the links
    `parseBoard` reads are the same at the leaf that found an answer and after
    the search (`ParsedAtLeaf`). */
module SudokuDLX {
  import opened Rings
  import opened Matrix
  import opened SearchState
  import opened Algorithm
  import opened Sudoku
  import opened SudokuSolve
  import opened SudokuAnswers
  import opened SudokuCover
  import opened Handler
  import opened Search
  import opened SudokuFound
  import Analyzer

  /** Covering columns changes which columns are live, never the row rings nor
      the node names: the placements `parseBoard` reads from an answer are the
      same on every matrix the search passes through. */
  lemma ParsedAtLeaf(sh: Shape, leaf: Shape, C: seq<int>, A: seq<int>, size: int)
    requires size > 0 && leaf.rows == sh.rows && leaf.rowOf == sh.rowOf
    ensures Placements(leaf, C, A, size) == Placements(sh, C, A, size)
  {
    forall k | 0 <= k < |A| ensures RowFrom(leaf, A[k]) == RowFrom(sh, A[k]) {
      assert InRow(leaf, A[k]) == InRow(sh, A[k]);
    }
  }

  /** The first `k + 1` boards of `bs` are the first `k` and `bs[k]`. */
  lemma Snoc(bs: seq<seq<seq<int>>>, k: int, b: seq<seq<int>>)
    requires 0 <= k < |bs| && bs[k] == b
    ensures bs[..k + 1] == bs[..k] + [b]
  {
  }

  /** Completed boards are read by `getInfoBank` without an index out of range. */
  lemma SolvedReadable(bs: seq<seq<seq<int>>>, s: seq<seq<int>>)
    requires forall k | 0 <= k < |bs| :: Solved(bs[k], s)
    ensures forall k | 0 <= k < |bs| :: Analyzer.Readable(bs[k])
  {
  }

  /** The rows of the 2-D array `R`, as the `int[][]` they are in the source. */
  method GridOf(R: array2<int>) returns (grid: seq<seq<int>>)
    ensures |grid| == R.Length0
    ensures forall i | 0 <= i < R.Length0 :: |grid[i]| == R.Length1 && forall h | 0 <= h < R.Length1 :: grid[i][h] == R[i, h]
  {
    grid := seq(R.Length0, i requires 0 <= i < R.Length0 reads R =>
      seq(R.Length1, h requires 0 <= h < R.Length1 reads R => R[i, h]));
  }

  /** The 9 by 9 array `b` holding what the placements `ps` write, as rows. */
  method ReadBoard(b: array2<int>, ghost ps: seq<Placement>) returns (board: seq<seq<int>>)
    requires b.Length0 == 9 && b.Length1 == 9
    requires forall a, c | 0 <= a < 9 && 0 <= c < 9 :: b[a, c] == CellValue(ps, a, c)
    ensures board == BoardOf(ps)
  {
    board := GridOf(b);
    forall a | 0 <= a < 9 ensures board[a] == BoardOf(ps)[a] {
      assert forall c | 0 <= c < 9 :: board[a][c] == BoardOf(ps)[a][c];
    }
  }

  /** `new DLX(makeExactCoverGrid(sudoku), new SudokuHandler(9))`: a solver
      holding the Sudoku matrix of the board. */
  method NewSolver(sudoku: seq<seq<int>>) returns (dlx: DLX)
    requires IsBoard(sudoku)
    ensures fresh(dlx) && fresh(dlx.links) && dlx.Ready() && dlx.found == []
    ensures fresh(dlx.links.L) && fresh(dlx.links.R) && fresh(dlx.links.U)
    ensures fresh(dlx.links.D) && fresh(dlx.links.C) && fresh(dlx.links.size)
    ensures dlx.board == SudokuShape(sudoku)
  {
    var R := MakeExactCoverGrid(sudoku);
    var cover := GridOf(R);
    ghost var M := CoverGrid(sudoku);
    forall x | 0 <= x < 729 ensures cover[x] == M[x] {
      assert forall h | 0 <= h < 324 :: cover[x][h] == M[x][h];
    }
    assert cover == M;
    dlx := new DLX(cover);
  }

  /** `handler.parseBoard(answer)` of a `SudokuHandler(9)` on an answer of the
      search on the matrix whose node names are `C`: the board its placements
      write. */
  method ParseAnswer(dlx: DLX, A: seq<int>, ghost s: seq<seq<int>>, ghost sh: Shape, ghost C: seq<int>)
    returns (board: seq<seq<int>>)
    requires IsBoard(s) && sh == SudokuShape(s) && dlx.Ready() && dlx.board == sh && dlx.links.State().C == C
    requires A in Solve(sh, C)
    ensures board == BoardOf(Placements(sh, C, A, 9))
  {
    SolvedAnswerBoard(dlx.links.State(), s, A);
    var b := ParseBoard(SudokuHandler(9), dlx.links, A, sh);
    board := ReadBoard(b.value, Placements(sh, C, A, 9));
  }

  /** `addSolution` of each of `boards`, in order. */
  method Store(analyzer: Analyzer.SolutionsAnalyzer, boards: seq<seq<seq<int>>>)
    modifies analyzer
    ensures analyzer.solutions == old(analyzer.solutions) + boards
  {
    for k := 0 to |boards|
      invariant analyzer.solutions == old(analyzer.solutions) + boards[..k]
    {
      analyzer.AddSolution(boards[k]);
      assert boards[..k + 1] == boards[..k] + [boards[k]];
    }
    assert boards[..|boards|] == boards;
  }

  /** The search part of `runSolver(sudoku)`: a solver for the Sudoku matrix of
      the board runs, and the board of each answer goes into a new analyzer,
      in the order the search finds them; `g` is the solver's matrix. */
  method SearchBoards(sudoku: seq<seq<int>>) returns (analyzer: Analyzer.SolutionsAnalyzer, ghost g: Arena)
    requires IsBoard(sudoku)
    ensures Sound(g, SudokuShape(sudoku))
    ensures analyzer.solutions == Boards(SudokuShape(sudoku), g.C, Solve(SudokuShape(sudoku), g.C))
  {
    var dlx := NewSolver(sudoku);
    dlx.RunSolver();
    g := dlx.links.State();
    assert dlx.found == Solve(SudokuShape(sudoku), g.C);
    var boards := ParseAll(dlx, dlx.found, sudoku);
    analyzer := new Analyzer.SolutionsAnalyzer();
    Store(analyzer, boards);
  }

  /** `runSolver(sudoku)` without its printing: search the Sudoku matrix of the
      board, store the board of each answer in the analyzer, and analyse them.
      The stored boards are the completed boards that keep the clues, each
      once; `max` and `highESquares` are those of `dumbGreedy` on their cells'
      sets of values. */
  method RunSolver(sudoku: seq<seq<int>>) returns (analyzer: Analyzer.SolutionsAnalyzer, max: int, highESquares: seq<Analyzer.Square>)
    requires IsBoard(sudoku)
    ensures forall k | 0 <= k < |analyzer.solutions| :: Solved(analyzer.solutions[k], sudoku)
    ensures forall B | Solved(B, sudoku) :: B in analyzer.solutions
    ensures forall i, j | 0 <= i < j < |analyzer.solutions| :: analyzer.solutions[i] != analyzer.solutions[j]
    ensures forall i, j | 0 <= i < 9 && 0 <= j < 9 :: |Analyzer.Seen(analyzer.solutions, i, j)| <= max
    ensures forall p :: p in highESquares <==> Analyzer.InBoard(p, 9, 9) && |Analyzer.Seen(analyzer.solutions, p.0, p.1)| == max
    ensures highESquares != [] && Analyzer.RowMajor(highESquares)
  {
    ghost var g;
    analyzer, g := SearchBoards(sudoku);
    BoardsAreSolutions(g, sudoku);
    SolvedReadable(analyzer.solutions, sudoku);
    max, highESquares := analyzer.AnalyzeSolutions();
  }

  /** The boards `handler.parseBoard` reads from the answers `As`, in order. */
  method ParseAll(dlx: DLX, As: seq<seq<int>>, ghost s: seq<seq<int>>) returns (boards: seq<seq<seq<int>>>)
    requires IsBoard(s) && dlx.Ready() && dlx.board == SudokuShape(s)
    requires Answers(dlx.board, dlx.links.State().C, As)
    ensures boards == Boards(dlx.board, dlx.links.State().C, As)
  {
    ghost var sh, C := dlx.board, dlx.links.State().C;
    boards := [];
    for k := 0 to |As|
      invariant boards == Boards(sh, C, As)[..k]
    {
      boards := ParseNext(dlx, As, k, boards, s, sh, C);
    }
    assert Boards(sh, C, As)[..|As|] == Boards(sh, C, As);
    assert dlx.board == sh && dlx.links.State().C == C;
  }

  /** One step of `ParseAll`: the board of answer `k` joins those of the first `k`. */
  method ParseNext(dlx: DLX, As: seq<seq<int>>, k: int, boards: seq<seq<seq<int>>>,
                   ghost s: seq<seq<int>>, ghost sh: Shape, ghost C: seq<int>)
    returns (boards': seq<seq<seq<int>>>)
    requires IsBoard(s) && sh == SudokuShape(s) && dlx.Ready() && dlx.board == sh && dlx.links.State().C == C
    requires 0 <= k < |As| && Answers(sh, C, As) && boards == Boards(sh, C, As)[..k]
    ensures boards' == Boards(sh, C, As)[..k + 1]
  {
    assert As[k] in As;
    var board := ParseAnswer(dlx, As[k], s, sh, C);
    Snoc(Boards(sh, C, As), k, board);
    boards' := boards + [board];
  }

  /** `getSolutions(sudoku)` as written: `modifiedSearch` drops the lists of its
      recursive calls, and the Sudoku matrix has 324 columns, so no board is
      returned, whatever the board. */
  method GetSolutions(sudoku: seq<seq<int>>) returns (sols: seq<seq<seq<int>>>)
    requires IsBoard(sudoku)
    ensures sols == []
  {
    var dlx := NewSolver(sudoku);
    ShapeSizes(sudoku);
    var answers := dlx.GetSolutions();
    sols := ParseAll(dlx, answers, sudoku);
  }

  /** `getSolutions(sudoku)` on the corrected `modifiedSearch`: the completed
      boards that keep the clues, each once, in the order the search finds
      them. */
  method CollectSolutions(sudoku: seq<seq<int>>) returns (sols: seq<seq<seq<int>>>)
    requires IsBoard(sudoku)
    ensures forall k | 0 <= k < |sols| :: Solved(sols[k], sudoku)
    ensures forall B | Solved(B, sudoku) :: B in sols
    ensures forall i, j | 0 <= i < j < |sols| :: sols[i] != sols[j]
  {
    var dlx := NewSolver(sudoku);
    var answers := dlx.CollectSolutions();
    sols := ParseAll(dlx, answers, sudoku);
    BoardsAreSolutions(dlx.links.State(), sudoku);
  }
}
