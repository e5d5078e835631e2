/** `DLX.makeDLXBoard`: the dancing-links matrix of a 0/1 grid, built in an arena
    of `1 + COLS + ROWS * COLS` nodes (the root, one header per column and room
    for a node per cell). */
module Board {
  import opened Rings
  import opened Matrix
  import opened Grid
  import opened GridSteps
  import opened BoardFacts
  import opened Links

  /** Root header 0, then headers 1..COLS linked left to right, then, row by row
      and left to right, a node for every 1 of the grid, linked at the bottom of
      its column and at the end of its row's ring; finally the root counts the
      columns. `DLXBoardBuilt` shows the result holds the matrix of the grid's 1s. */
  method MakeDLXBoard(b: DancingLinks, grid: seq<seq<int>>) returns (root: int)
    requires 0 < |grid| < MaxInt && Rect(grid, |grid[0]|)
    requires b.Inv() && b.L.Length == 1 + |grid[0]| + |grid| * |grid[0]|
    modifies b.L, b.R, b.U, b.D, b.C, b.size
    ensures b.Inv() && root == 0 && b.State() == DLXBoard(old(b.State()), grid)
  {
    ghost var g0 := b.State();
    var cols := |grid[0]|;
    b.NewColumnNode(0);
    var headerNode := LinkHeaders(b, cols, g0);
    HeaderRowLinks(g0, cols);
    headerNode := b.C[b.R[headerNode]];
    LinkRows(b, grid, g0);
    root := headerNode;
    b.size[root] := cols;
  }

  /** The second loop of `makeDLXBoard`: the rows of the grid, top to bottom,
      once the header ring holds all `COLS` headers. */
  method LinkRows(b: DancingLinks, grid: seq<seq<int>>, ghost g0: Arena)
    requires 0 < |grid| < MaxInt && Rect(grid, |grid[0]|)
    requires b.Inv() && Sized(g0) && |g0.L| == 1 + |grid[0]| + |grid| * |grid[0]|
    requires b.State() == HeaderRow(g0, |grid[0]|)
    modifies b.L, b.R, b.U, b.D, b.C, b.size
    ensures b.Inv() && b.State() == Entries(HeaderRow(g0, |grid[0]|), |grid[0]|, Ones(grid, |grid[0]|, |grid|))
  {
    var cols := |grid[0]|;
    var x := 1 + cols;  // the next free node
    var i := 0;
    while i < |grid|
      invariant b.Inv() && 0 <= i <= |grid| && RowsLinked(b.State(), grid, i, x, g0)
    {
      x := LinkRow(b, grid, i, x, g0);
      i := i + 1;
    }
    assert RowsBuilt(b.State(), grid, i, x, g0);
  }

  /** The first loop of `makeDLXBoard`: `headerNode = headerNode.linkRight(new
      ColumnNode(i))` for each column `i`, so that header `t + 1` follows header
      `t` in the header ring; returns the last header. */
  method LinkHeaders(b: DancingLinks, cols: nat, ghost g0: Arena) returns (last: int)
    requires b.Inv() && Sized(g0) && cols < b.L.Length == |g0.L| && b.State() == HeaderRow(g0, 0)
    modifies b.L, b.R, b.U, b.D, b.C, b.size
    ensures b.Inv() && last == cols && b.State() == HeaderRow(g0, cols)
  {
    last := 0;
    var t := 0;
    while t < cols
      invariant b.Inv() && 0 <= t <= cols && last == t && b.State() == HeaderRow(g0, t)
    {
      HeaderRowLinks(g0, t);
      b.NewColumnNode(t + 1);
      last := b.LinkRight(last, t + 1);
      t := t + 1;
    }
  }

  /** The body of the second loop of `makeDLXBoard` for grid row `i`: a node for
      each 1 among its first `COLS` entries, left to right, from node `x0` on;
      returns the next free node. `prev` is the row's last node so far, `-1`
      standing for `null`. */
  method LinkRow(b: DancingLinks, grid: seq<seq<int>>, i: int, x0: int, ghost g0: Arena) returns (x: int)
    requires b.Inv() && 0 <= i < |grid| && RowsLinked(b.State(), grid, i, x0, g0)
    modifies b.L, b.R, b.U, b.D, b.C, b.size
    ensures b.Inv() && RowsLinked(b.State(), grid, i + 1, x, g0)
  {
    assert RowsBuilt(b.State(), grid, i, x0, g0);
    var cols := |grid[0]|;
    var row := grid[i];
    ghost var before := Ones(grid, cols, i);
    ghost var H := HeaderRow(g0, cols);
    OnesIn(grid, cols, i);
    x := x0;
    var prev := -1;
    var j := 0;
    ghost var done := before;
    assert before + RowOnes(row, i, 0) == before;
    while j < cols
      invariant b.Inv() && 0 <= j <= cols
      invariant done == before + RowOnes(row, i, j) && x == 1 + cols + |done|
      invariant prev == if RowOnes(row, i, j) == [] then -1 else x - 1
      invariant b.State() == Entries(H, cols, done)
    {
      NextInRow(before, row, i, j, cols, |grid|);
      if row[j] == 1 {
        prev := LinkCell(b, grid, i, j, x, prev, g0, done);
        x := x + 1;
        done := done + [Cell(i, j)];
      }
      j := j + 1;
    }
  }

  /** The inner loop of `makeDLXBoard` on a 1 at `(i, j)`, the next 1 of the grid
      after the 1s `done`: its node `x` starts the row when `prev` is `null`
      (`-1`), else follows `prev`; returns the new `prev`, the node `x`. */
  method LinkCell(b: DancingLinks, grid: seq<seq<int>>, i: int, j: int, x: int, prev0: int,
                  ghost g0: Arena, ghost done: seq<Cell>) returns (prev: int)
    requires 0 < |grid| < MaxInt && Rect(grid, |grid[0]|) && 0 <= i < |grid| && 0 <= j < |grid[0]|
    requires b.Inv() && Sized(g0) && |g0.L| == 1 + |grid[0]| + |grid| * |grid[0]|
    requires done == Ones(grid, |grid[0]|, i) + RowOnes(grid[i], i, j) && x == 1 + |grid[0]| + |done|
    requires prev0 == if RowOnes(grid[i], i, j) == [] then -1 else x - 1
    requires b.State() == Entries(HeaderRow(g0, |grid[0]|), |grid[0]|, done)
    modifies b.L, b.R, b.U, b.D, b.C, b.size
    ensures b.Inv() && prev == x
    ensures b.State() == Entries(HeaderRow(g0, |grid[0]|), |grid[0]|, done + [Cell(i, j)])
  {
    var h := j + 1;
    prev := prev0;
    if prev == -1 {
      prev := x;
    }
    NextCellStep(g0, grid, i, j, h, done, x, prev0, prev);
    prev := LinkEntry(b, h, x, prev);
  }

  /** The body of `makeDLXBoard`'s inner loop on a 1 of column node `h`:
      `new DancingNode(col)` as node `x`, `col.U.linkBelow(newNode)`,
      `prev = prev.linkRight(newNode)`, `col.size++`. */
  method LinkEntry(b: DancingLinks, h: int, x: int, prev: int) returns (last: int)
    requires b.Inv() && Linkable(b.State(), h, x, prev)
    modifies b.L, b.R, b.U, b.D, b.C, b.size
    ensures b.Inv() && b.State() == AddNode(old(b.State()), h, x, prev) && last == x
  {
    ghost var g := b.State();
    AddNodeSteps(g, h, x, prev);
    b.NewNode(x, h);
    var _ := b.LinkBelow(b.U[h], x);
    last := b.LinkRight(prev, x);
    b.size[h] := b.size[h] + 1;
  }
}
