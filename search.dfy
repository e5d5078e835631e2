/** The `DLX` solver object: the dancing-links matrix it built, the partial
    answer `search` extends and shrinks, the count of answers found and the
    answers reported to the solution handler, in order. */
module Search {
  import opened Rings
  import opened Matrix
  import opened Links
  import opened Algorithm
  import opened SearchState
  import opened SearchFacts
  import opened SearchLoops
  import Grid
  import BoardFacts
  import Board

  /** The grid `[[1]]`: its matrix has one column and one entry, node 2, and the
      search on it reports the one answer `[2]`, where `modifiedSearch` returns
      an empty list. */
  lemma OneByOneLoses()
    ensures var sh := Grid.ShapeOf(1, 1, Grid.Ones([[1]], 1, 1));
      && sh == Shape(1, 3, [1], [[2]], [[2]], [0, 0, 0])
      && forall C :: Solve(sh, C) == [[2]]
  {
    var cs := Grid.Ones([[1]], 1, 1);
    assert Grid.RowOnes([1], 0, 1) == [Grid.Cell(0, 0)];
    assert cs == [Grid.Cell(0, 0)];
    assert Grid.ColumnNodes(cs, 2, 0) == [2];
    assert Grid.RowNodes(cs, 2, 0) == [2];
    assert Grid.ShapeOf(1, 1, cs) == Shape(1, 3, [1], [[2]], [[2]], [0, 0, 0]);
    forall C ensures Solve(Shape(1, 3, [1], [[2]], [[2]], [0, 0, 0]), C) == [[2]] {
      OneEntrySolve(C);
    }
  }

  class DLX {
    var links: DancingLinks
    var header: int                // the root header, node 0
    var solutions: int             // the number of answers found
    var answer: seq<int>           // the rows chosen so far, as the entry picked in each
    var found: seq<seq<int>>       // the answers handed to the solution handler, in order
    ghost var board: Shape         // the matrix the constructor built

    /** The links are in order and `header` is the root. */
    ghost predicate Inv()
      reads this, links, links.L, links.R, links.U, links.D, links.C, links.size
    {
      links.Inv() && header == 0
    }

    /** Between searches the arena holds the matrix that was built. */
    ghost predicate Ready()
      reads this, links, links.L, links.R, links.U, links.D, links.C, links.size
    {
      Inv() && Sound(links.State(), board)
    }

    /** `DLX(grid)`: `makeDLXBoard(grid)` in an arena with room for a node per
        cell; the matrix held is that of the grid's 1s. */
    constructor (grid: seq<seq<int>>)
      requires 0 < |grid| < MaxInt && Grid.Rect(grid, |grid[0]|)
      ensures Ready() && solutions == 0 && answer == [] && found == []
      ensures board == Grid.ShapeOf(|grid[0]|, |grid|, Grid.Ones(grid, |grid[0]|, |grid|))
      ensures fresh(links) && fresh(links.L) && fresh(links.R) && fresh(links.U)
      ensures fresh(links.D) && fresh(links.C) && fresh(links.size)
    {
      var b := new DancingLinks(1 + |grid[0]| + |grid| * |grid[0]|);
      ghost var g0 := b.State();
      var root := Board.MakeDLXBoard(b, grid);
      BoardFacts.DLXBoardBuilt(g0, grid);
      links := b;
      header := root;
      solutions := 0;
      answer := [];
      found := [];
      board := Grid.ShapeOf(|grid[0]|, |grid|, Grid.Ones(grid, |grid[0]|, |grid|));
    }

    /** `selectColumnNodeHeuristic`: walk the header ring `hs` from `header.R`,
        keeping the first header whose count is below the smallest seen so far
        (starting from `Integer.MAX_VALUE`); `-1` stands for `null`. */
    method SelectColumnNodeHeuristic(ghost hs: seq<int>) returns (ret: int)
      requires Inv() && Walk(Row(links.State()), header, hs)
      ensures ret == Heuristic(hs, Sizes(hs, links.size[..]))
    {
      ghost var ch := Row(links.State());
      ghost var s := Sizes(hs, links.size[..]);
      WalkFirst(ch, header, hs);
      var min := MaxInt;
      ret := -1;
      var c := links.R[header];
      ghost var t := 0;
      while c != header
        invariant 0 <= t <= |hs| && c == if t < |hs| then hs[t] else header
        invariant ret == HeuristicUpTo(hs, s, t)
        invariant min == if t == 0 || s[ArgMinUpTo(s, t)] >= MaxInt then MaxInt else s[ArgMinUpTo(s, t)]
        decreases |hs| - t
      {
        WalkNext(ch, header, hs, t);
        if 0 < t {
          ArgMinNext(s, t);
        }
        if links.size[c] < min {
          min := links.size[c];
          ret := c;
        }
        c := links.R[c];
        t := t + 1;
      }
    }

    /** `search(k)` on the sound matrix `sh`: report `answer` when no column is
        left; otherwise cover the chosen column, try each of its rows, and
        uncover it. The links and `answer` come back as they were, and the
        answers reported are those of `Solve`, each after the current `answer`. */
    method Search(k: int, ghost sh: Shape)
      requires Inv() && |answer| == k && Sound(links.State(), sh)
      modifies links.L, links.R, links.U, links.D, links.size, this`answer, this`found, this`solutions
      ensures Inv() && links.State() == old(links.State()) && answer == old(answer)
      ensures found == old(found) + Extend(old(answer), Solve(sh, old(links.State()).C))
      ensures solutions == old(solutions) + |Solve(sh, old(links.State()).C)|
      decreases |sh.active|, 1
    {
      ghost var g := links.State();
      EmptyHeaderRing(g, sh);
      if links.R[header] == header {
        SolveDone(sh, g.C, answer);
        found := found + [answer];
        solutions := solutions + 1;
      } else {
        SearchChosen(k, sh);
      }
    }

    /** The branch of `search(k)` where columns are left: pick a column with the
        heuristic, cover it, try each of its rows, and uncover it. */
    method SearchChosen(k: int, ghost sh: Shape)
      requires Inv() && |answer| == k && Sound(links.State(), sh) && sh.active != []
      modifies links.L, links.R, links.U, links.D, links.size, this`answer, this`found, this`solutions
      ensures Inv() && links.State() == old(links.State()) && answer == old(answer)
      ensures found == old(found) + Extend(old(answer), Solve(sh, old(links.State()).C))
      ensures solutions == old(solutions) + |Solve(sh, old(links.State()).C)|
      decreases |sh.active|, 0
    {
      ghost var g := links.State();
      EmptyHeaderRing(g, sh);
      ChooseActive(g, sh);
      var c := SelectColumnNodeHeuristic(sh.active);
      assert c == Choose(sh);
      SoundCover(g, sh, c);
      links.Cover(c, sh);
      CoveredColumn(g, sh, c);
      ghost var sh1 := CoverShape(sh, g.C, c);
      ghost var f0 := found;
      c := SearchColumn(k, c, links.State(), sh1, Column(sh1, c));
      ReportAll(f0, found, answer, sh, g.C);
      links.Uncover(c, g, sh);
    }

    /** The loop of `search` over the rows `col` of the covered column `c0`, top to
        bottom, on the arena `g1` holding the matrix `sh1`; returns `c`, which the
        loop re-reads from each row's entry. */
    method SearchColumn(k: int, c0: int, ghost g1: Arena, ghost sh1: Shape, ghost col: seq<int>) returns (c: int)
      requires Inv() && |answer| == k && links.State() == g1 && ColumnLoop(g1, sh1, c0, col)
      modifies links.L, links.R, links.U, links.D, links.size, this`answer, this`found, this`solutions
      ensures Inv() && links.State() == g1 && answer == old(answer) && c == c0
      ensures found == old(found) + Extend(old(answer), Branches(sh1, g1.C, col))
      ensures solutions == old(solutions) + |Branches(sh1, g1.C, col)|
      decreases |sh1.active|, 3
    {
      WalkFirst(Col(g1), c0, col);
      c := c0;
      var r := links.D[c];
      ghost var p := 0;
      while r != c
        invariant Inv() && 0 <= p <= |col| && links.State() == g1 && answer == old(answer) && c == c0
        invariant r == if p < |col| then col[p] else c
        invariant found == old(found) + Extend(answer, Branches(sh1, g1.C, col[..p]))
        invariant solutions == old(solutions) + |Branches(sh1, g1.C, col[..p])|
        decreases |col| - p
      {
        WalkNext(Col(g1), c0, col, p);
        assert r in col;
        ghost var f1 := found;
        r, c := SearchRow(k, c, r, g1, sh1);
        ReportNext(old(found), f1, found, answer, sh1, g1.C, col, p);
        r := links.D[r];
        p := p + 1;
      }
      assert col[..p] == col;
    }

    /** One iteration of the row loop of `search`: push `r0`, cover the columns of
        the rest of its row, search deeper, pop the entry back into `r` and read
        `c` from it, and uncover those columns right to left. */
    method SearchRow(k: int, c0: int, r0: int, ghost g1: Arena, ghost sh1: Shape) returns (r: int, c: int)
      requires Inv() && |answer| == k && links.State() == g1 && RowOfColumn(g1, sh1, c0, r0)
      modifies links.L, links.R, links.U, links.D, links.size, this`answer, this`found, this`solutions
      ensures Inv() && links.State() == g1 && answer == old(answer) && r == r0 && c == c0
      ensures found == old(found) + Extend(old(answer) + [r0], Solve(CoverAll(sh1, g1.C, Others(sh1, r0)), g1.C))
      ensures solutions == old(solutions) + |Solve(CoverAll(sh1, g1.C, Others(sh1, r0)), g1.C)|
      decreases |sh1.active|, 2
    {
      CoverArenaValid(g1, sh1, Others(sh1, r0));
      answer := answer + [r0];
      CoverRowColumns(r0, g1, sh1);
      Search(k + 1, CoverAll(sh1, g1.C, Others(sh1, r0)));
      r := answer[|answer| - 1];
      answer := answer[..|answer| - 1];
      c := links.C[r];
      UncoverRowColumns(r, g1, sh1);
    }

    /** `runSolver()`: reset the count and the answer, and search the matrix that
        was built. Afterwards the answers reported are all those of `Solve`, in
        order, each an exact cover of the matrix's columns, and `solutions`
        counts them. */
    method RunSolver()
      requires Ready()
      modifies links.L, links.R, links.U, links.D, links.size, this`answer, this`found, this`solutions
      ensures Ready() && links.State() == old(links.State()) && answer == []
      ensures found == old(found) + Solve(board, links.State().C) && solutions == |Solve(board, links.State().C)|
      ensures forall A | A in Solve(board, links.State().C) :: ExactCover(board, links.State().C, A, Elems(board.active))
    {
      solutions := 0;
      answer := [];
      Search(0, board);
      ExtendEmpty(Solve(board, links.State().C));
      SolveCovers(links.State(), board, board);
    }

    /** `getSolutions()` as written: reset the count and the answer, and return
        what `modifiedSearch(0)` returns: the empty answer when the matrix has no
        column, and nothing otherwise. */
    method GetSolutions() returns (sols: seq<seq<int>>)
      requires Ready()
      modifies links.L, links.R, links.U, links.D, links.size, this`answer, this`solutions
      ensures Ready() && links.State() == old(links.State()) && answer == [] && solutions == 0
      ensures sols == if board.active == [] then [[]] else []
    {
      solutions := 0;
      answer := [];
      sols := ModifiedSearch(0, board);
    }

    /** `getSolutions()` on the corrected `modifiedSearch`: every answer of the
        search, in order, each an exact cover of the matrix's columns. */
    method CollectSolutions() returns (sols: seq<seq<int>>)
      requires Ready()
      modifies links.L, links.R, links.U, links.D, links.size, this`answer, this`solutions
      ensures Ready() && links.State() == old(links.State()) && answer == [] && solutions == 0
      ensures sols == Solve(board, links.State().C)
      ensures forall A | A in sols :: ExactCover(board, links.State().C, A, Elems(board.active))
    {
      solutions := 0;
      answer := [];
      sols := CollectingSearch(0, board);
      ExtendEmpty(Solve(board, links.State().C));
      SolveCovers(links.State(), board, board);
    }

    // -------------------------------------------------------------------------
    // modifiedSearch, as written: the recursive results are dropped
    // -------------------------------------------------------------------------

    /** `modifiedSearch(k)` as written: a fresh local list, which gets the current
        answer when no column is left; otherwise the same cover / try each row /
        uncover walk as `search`, whose recursive results are discarded. So the
        list holds the current answer exactly when the matrix has no column
        left, and is empty otherwise (`OneByOneLoses`). */
    method ModifiedSearch(k: int, ghost sh: Shape) returns (sols: seq<seq<int>>)
      requires Inv() && |answer| == k && Sound(links.State(), sh)
      modifies links.L, links.R, links.U, links.D, links.size, this`answer
      ensures Inv() && links.State() == old(links.State()) && answer == old(answer)
      ensures sols == if sh.active == [] then [old(answer)] else []
      decreases |sh.active|, 1
    {
      ghost var g := links.State();
      EmptyHeaderRing(g, sh);
      sols := [];
      if links.R[header] == header {
        sols := sols + [answer];
      } else {
        ModifiedChosen(k, sh);
      }
    }

    /** The branch of `modifiedSearch(k)` where columns are left. */
    method ModifiedChosen(k: int, ghost sh: Shape)
      requires Inv() && |answer| == k && Sound(links.State(), sh) && sh.active != []
      modifies links.L, links.R, links.U, links.D, links.size, this`answer
      ensures Inv() && links.State() == old(links.State()) && answer == old(answer)
      decreases |sh.active|, 0
    {
      ghost var g := links.State();
      EmptyHeaderRing(g, sh);
      ChooseActive(g, sh);
      var c := SelectColumnNodeHeuristic(sh.active);
      assert c == Choose(sh);
      SoundCover(g, sh, c);
      links.Cover(c, sh);
      CoveredColumn(g, sh, c);
      ghost var sh1 := CoverShape(sh, g.C, c);
      c := ModifiedColumn(k, c, links.State(), sh1, Column(sh1, c));
      links.Uncover(c, g, sh);
    }

    /** The row loop of `modifiedSearch` over the covered column `c0`. */
    method ModifiedColumn(k: int, c0: int, ghost g1: Arena, ghost sh1: Shape, ghost col: seq<int>) returns (c: int)
      requires Inv() && |answer| == k && links.State() == g1 && ColumnLoop(g1, sh1, c0, col)
      modifies links.L, links.R, links.U, links.D, links.size, this`answer
      ensures Inv() && links.State() == g1 && answer == old(answer) && c == c0
      decreases |sh1.active|, 3
    {
      WalkFirst(Col(g1), c0, col);
      c := c0;
      var r := links.D[c];
      ghost var p := 0;
      while r != c
        invariant Inv() && 0 <= p <= |col| && links.State() == g1 && answer == old(answer) && c == c0
        invariant r == if p < |col| then col[p] else c
        decreases |col| - p
      {
        WalkNext(Col(g1), c0, col, p);
        assert r in col;
        r, c := ModifiedRow(k, c, r, g1, sh1);
        r := links.D[r];
        p := p + 1;
      }
    }

    /** One iteration of the row loop of `modifiedSearch`: the list the recursive
        call returns is dropped. */
    method ModifiedRow(k: int, c0: int, r0: int, ghost g1: Arena, ghost sh1: Shape) returns (r: int, c: int)
      requires Inv() && |answer| == k && links.State() == g1 && RowOfColumn(g1, sh1, c0, r0)
      modifies links.L, links.R, links.U, links.D, links.size, this`answer
      ensures Inv() && links.State() == g1 && answer == old(answer) && r == r0 && c == c0
      decreases |sh1.active|, 2
    {
      CoverArenaValid(g1, sh1, Others(sh1, r0));
      answer := answer + [r0];
      CoverRowColumns(r0, g1, sh1);
      var _ := ModifiedSearch(k + 1, CoverAll(sh1, g1.C, Others(sh1, r0)));
      r := answer[|answer| - 1];
      answer := answer[..|answer| - 1];
      c := links.C[r];
      UncoverRowColumns(r, g1, sh1);
    }

    // -------------------------------------------------------------------------
    // modifiedSearch, corrected: the recursive results are kept
    // -------------------------------------------------------------------------

    /** `modifiedSearch(k)` with the list of each recursive call added to the
        local list: it returns every answer `search` would report, in the same
        order, each after the current `answer`. */
    method CollectingSearch(k: int, ghost sh: Shape) returns (sols: seq<seq<int>>)
      requires Inv() && |answer| == k && Sound(links.State(), sh)
      modifies links.L, links.R, links.U, links.D, links.size, this`answer
      ensures Inv() && links.State() == old(links.State()) && answer == old(answer)
      ensures sols == Extend(old(answer), Solve(sh, old(links.State()).C))
      decreases |sh.active|, 1
    {
      ghost var g := links.State();
      EmptyHeaderRing(g, sh);
      sols := [];
      if links.R[header] == header {
        SolveDone(sh, g.C, answer);
        sols := sols + [answer];
      } else {
        sols := CollectingChosen(k, sh);
      }
    }

    /** The branch of the corrected `modifiedSearch(k)` where columns are left. */
    method CollectingChosen(k: int, ghost sh: Shape) returns (sols: seq<seq<int>>)
      requires Inv() && |answer| == k && Sound(links.State(), sh) && sh.active != []
      modifies links.L, links.R, links.U, links.D, links.size, this`answer
      ensures Inv() && links.State() == old(links.State()) && answer == old(answer)
      ensures sols == Extend(old(answer), Solve(sh, old(links.State()).C))
      decreases |sh.active|, 0
    {
      ghost var g := links.State();
      EmptyHeaderRing(g, sh);
      ChooseActive(g, sh);
      var c := SelectColumnNodeHeuristic(sh.active);
      assert c == Choose(sh);
      SoundCover(g, sh, c);
      links.Cover(c, sh);
      CoveredColumn(g, sh, c);
      ghost var sh1 := CoverShape(sh, g.C, c);
      c, sols := CollectingColumn(k, c, links.State(), sh1, Column(sh1, c));
      ReportAll([], sols, answer, sh, g.C);
      links.Uncover(c, g, sh);
    }

    /** The row loop of the corrected `modifiedSearch` over the covered column `c0`. */
    method CollectingColumn(k: int, c0: int, ghost g1: Arena, ghost sh1: Shape, ghost col: seq<int>)
      returns (c: int, sols: seq<seq<int>>)
      requires Inv() && |answer| == k && links.State() == g1 && ColumnLoop(g1, sh1, c0, col)
      modifies links.L, links.R, links.U, links.D, links.size, this`answer
      ensures Inv() && links.State() == g1 && answer == old(answer) && c == c0
      ensures sols == Extend(old(answer), Branches(sh1, g1.C, col))
      decreases |sh1.active|, 3
    {
      WalkFirst(Col(g1), c0, col);
      sols := [];
      c := c0;
      var r := links.D[c];
      ghost var p := 0;
      while r != c
        invariant Inv() && 0 <= p <= |col| && links.State() == g1 && answer == old(answer) && c == c0
        invariant r == if p < |col| then col[p] else c
        invariant sols == [] + Extend(answer, Branches(sh1, g1.C, col[..p]))
        decreases |col| - p
      {
        WalkNext(Col(g1), c0, col, p);
        assert r in col;
        ghost var f1 := sols;
        var more;
        r, c, more := CollectingRow(k, c, r, g1, sh1);
        sols := sols + more;
        ReportNext([], f1, sols, answer, sh1, g1.C, col, p);
        r := links.D[r];
        p := p + 1;
      }
      assert col[..p] == col;
    }

    /** One iteration of the row loop of the corrected `modifiedSearch`: returns
        the list of the recursive call, for the loop to add to its own. */
    method CollectingRow(k: int, c0: int, r0: int, ghost g1: Arena, ghost sh1: Shape)
      returns (r: int, c: int, more: seq<seq<int>>)
      requires Inv() && |answer| == k && links.State() == g1 && RowOfColumn(g1, sh1, c0, r0)
      modifies links.L, links.R, links.U, links.D, links.size, this`answer
      ensures Inv() && links.State() == g1 && answer == old(answer) && r == r0 && c == c0
      ensures more == Extend(old(answer) + [r0], Solve(CoverAll(sh1, g1.C, Others(sh1, r0)), g1.C))
      decreases |sh1.active|, 2
    {
      CoverArenaValid(g1, sh1, Others(sh1, r0));
      answer := answer + [r0];
      CoverRowColumns(r0, g1, sh1);
      more := CollectingSearch(k + 1, CoverAll(sh1, g1.C, Others(sh1, r0)));
      r := answer[|answer| - 1];
      answer := answer[..|answer| - 1];
      c := links.C[r];
      UncoverRowColumns(r, g1, sh1);
    }

    /** `for (j = r.R; j != r; j = j.R) j.C.cover();` on the matrix `sh1` held by
        `g1`: the result is `CoverArena` of the rest of `r`'s row. */
    method CoverRowColumns(r: int, ghost g1: Arena, ghost sh1: Shape)
      requires Inv() && RowReady(g1, sh1, r) && links.State() == g1
      modifies links.L, links.R, links.U, links.D, links.size
      ensures Inv() && links.State() == CoverArena(g1, sh1, Others(sh1, r))
    {
      ghost var o := Others(sh1, r);
      RowAtStage(g1, sh1, r, o, 0);
      assert o[..0] == [];
      WalkFirst(Row(g1), r, o);
      var j := links.R[r];
      ghost var q := 0;
      while j != r
        invariant Inv() && 0 <= q <= |o| && links.State() == CoverArena(g1, sh1, o[..q])
        invariant j == if q < |o| then o[q] else r
        decreases |o| - q
      {
        RowCoverStep(g1, sh1, r, o, q);
        links.Cover(links.C[j], CoverAll(sh1, g1.C, o[..q]));
        j := links.R[j];
        q := q + 1;
      }
      assert o[..q] == o;
    }

    /** `for (j = r.L; j != r; j = j.L) j.C.uncover();`: undoes `CoverRowColumns`,
        right to left. */
    method UncoverRowColumns(r: int, ghost g1: Arena, ghost sh1: Shape)
      requires Inv() && RowReady(g1, sh1, r) && links.State() == CoverArena(g1, sh1, Others(sh1, r))
      modifies links.L, links.R, links.U, links.D, links.size
      ensures Inv() && links.State() == g1
    {
      ghost var o := Others(sh1, r);
      assert o[..|o|] == o;
      RowAtStage(g1, sh1, r, o, |o|);
      WalkFirst(Row(links.State()), r, o);
      var j := links.L[r];
      ghost var q := |o| - 1;
      while j != r
        invariant Inv() && -1 <= q < |o| && links.State() == CoverArena(g1, sh1, o[..q + 1])
        invariant j == if q >= 0 then o[q] else r
        decreases q + 1
      {
        StageAt(g1, sh1, o, q);
        ghost var gq := CoverArena(g1, sh1, o[..q]);
        ghost var sq := CoverAll(sh1, g1.C, o[..q]);
        SoundCover(gq, sq, links.C[j]);
        links.Uncover(links.C[j], gq, sq);
        RowAtStage(g1, sh1, r, o, q);
        WalkNext(Row(links.State()), r, o, q);
        j := links.L[j];
        q := q - 1;
      }
      assert o[..0] == [];
    }
  }
}
