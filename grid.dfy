/** The matrix that `DLX.makeDLXBoard` builds from a 0/1 grid, described as a
    `Shape`, and the steps that keep the arena `Valid` while it is built: one
    header at a time, then one 1-entry at a time in row-major order. */
module Grid {
  import opened Rings
  import opened Matrix

  /** A 1 of the grid, at row `i` and column `j`. */
  datatype Cell = Cell(i: int, j: int)

  /** Row-major order of cells. */
  predicate Before(a: Cell, b: Cell)
  {
    a.i < b.i || (a.i == b.i && a.j < b.j)
  }

  /** Every row of `M` has at least `m` entries. */
  predicate Rect(M: seq<seq<int>>, m: int)
  {
    forall i | 0 <= i < |M| :: |M[i]| >= m
  }

  /** The 1s among the first `j` entries of `row`, which is grid row `i`, left to right. */
  function RowOnes(row: seq<int>, i: int, j: int): (cs: seq<Cell>)
    requires 0 <= j <= |row|
    decreases j
  {
    if j == 0 then [] else RowOnes(row, i, j - 1) + (if row[j - 1] == 1 then [Cell(i, j - 1)] else [])
  }

  /** The 1s of the first `i` rows of the grid, row after row: the order in which
      `makeDLXBoard` creates their nodes. */
  function Ones(M: seq<seq<int>>, m: nat, i: int): (cs: seq<Cell>)
    requires Rect(M, m) && 0 <= i <= |M|
    decreases i
  {
    if i == 0 then [] else assert |M[i - 1]| >= m; Ones(M, m, i - 1) + RowOnes(M[i - 1], i - 1, m)
  }

  /** The column headers 1..m, left to right. */
  function Headers(m: int): (hs: seq<int>)
    requires 0 <= m
    ensures |hs| == m && forall k | 0 <= k < m :: hs[k] == k + 1
  {
    seq(m, k => k + 1)
  }

  /** The nodes `base + k` of the cells `cs[k]` that lie in grid column `j`, in order. */
  function ColumnNodes(cs: seq<Cell>, base: int, j: int): seq<int>
    decreases |cs|
  {
    if cs == [] then []
    else ColumnNodes(cs[..|cs| - 1], base, j) + (if cs[|cs| - 1].j == j then [base + |cs| - 1] else [])
  }

  /** The nodes `base + k` of the cells `cs[k]` that lie in grid row `i`, in order. */
  function RowNodes(cs: seq<Cell>, base: int, i: int): seq<int>
    decreases |cs|
  {
    if cs == [] then []
    else RowNodes(cs[..|cs| - 1], base, i) + (if cs[|cs| - 1].i == i then [base + |cs| - 1] else [])
  }

  /** The matrix of `m` columns and `r` grid rows once the 1s `cs` have nodes:
      root 0, headers 1..m, and node `1 + m + k` for the cell `cs[k]`. */
  ghost function ShapeOf(m: nat, r: nat, cs: seq<Cell>): Shape
  {
    var base := 1 + m;
    Shape(m, base + |cs|, Headers(m),
          seq(m, j => ColumnNodes(cs, base, j)),
          seq(r, i => RowNodes(cs, base, i)),
          seq(base, _ => 0) + seq(|cs|, k requires 0 <= k < |cs| => cs[k].i))
  }

  /** The cells lie in the grid and are in row-major order. */
  ghost predicate CellsOk(cs: seq<Cell>, m: int, r: int)
  {
    && (forall k | 0 <= k < |cs| :: 0 <= cs[k].i < r && 0 <= cs[k].j < m)
    && (forall a, b | 0 <= a < b < |cs| :: Before(cs[a], cs[b]))
  }

  /** `c` is a cell of an `r` by `m` grid that comes after the cells `cs`. */
  ghost predicate NextOk(cs: seq<Cell>, c: Cell, m: int, r: int)
  {
    0 <= c.i < r < MaxInt && 0 <= c.j < m && (cs == [] || Before(cs[|cs| - 1], c))
  }

  /** Every 1-entry sits in the column ring of its own column. */
  ghost predicate Placed(g: Arena, sh: Shape)
  {
    forall y | sh.m < y < sh.n :: 0 <= y < |g.C| && 1 <= g.C[y] <= |sh.cols| && y in sh.cols[g.C[y] - 1]
  }

  /** The arena holds the matrix of the cells `cs`. */
  ghost predicate Built(g: Arena, m: nat, r: nat, cs: seq<Cell>)
  {
    && CellsOk(cs, m, r)
    && Valid(g, ShapeOf(m, r, cs))
    && Placed(g, ShapeOf(m, r, cs))
  }

  /** What one iteration of the inner loop of `makeDLXBoard` may assume: node
      `sh.n` is free, and `pv` ends grid row `i` so far, or is the new node itself. */
  ghost predicate EntryReady(g: Arena, sh: Shape, i: int, j: int, pv: int)
  {
    && Valid(g, sh) && Placed(g, sh) && sh.active == Headers(sh.m)
    && |sh.rowOf| == sh.n && sh.n < |g.L|
    && 0 <= i < |sh.rows| && 0 <= j < sh.m && |sh.cols[j]| + 1 < MaxInt
    && (forall y | y in sh.rows[i] :: 0 <= y < |g.C| && g.C[y] <= j)
    && pv == if sh.rows[i] == [] then sh.n else sh.rows[i][|sh.rows[i]| - 1]
  }

  /** The matrix with one more 1-entry, node `sh.n`, at the end of grid row `i`
      and at the bottom of grid column `j`. */
  ghost function Extend(sh: Shape, i: int, j: int): Shape
    requires 0 <= i < |sh.rows| && 0 <= j < |sh.cols|
  {
    sh.(n := sh.n + 1,
        cols := sh.cols[j := sh.cols[j] + [sh.n]],
        rows := sh.rows[i := sh.rows[i] + [sh.n]],
        rowOf := sh.rowOf + [i])
  }

  /** The links that one iteration of the inner loop of `makeDLXBoard` follows exist. */
  predicate CanAdd(g: Arena, h: int, x: int, prev: int)
  {
    && Sized(g) && 0 <= h < |g.L| && 0 <= x < |g.L| && 0 <= prev < |g.L| && h != x
    && 0 <= g.U[h] < |g.L| && g.U[h] != x && 0 <= g.D[g.U[h]] < |g.L|
    && (prev == x || 0 <= g.R[prev] < |g.L|)
  }

  /** `new DancingNode(col)`, `col.U.linkBelow(node)`, `prev.linkRight(node)`,
      `col.size++`: node `x` joins the bottom of column `h` and the row ring after
      `prev`, which is `x` itself when `x` starts its row. */
  function AddNode(g: Arena, h: int, x: int, prev: int): Arena
  {
    if CanAdd(g, h, x, prev) then
      var g1 := NewNode(g, x, h);
      var g2 := LinkBelow(g1, g1.U[h], x);
      var g3 := LinkRight(g2, prev, x);
      g3.(size := g3.size[h := g3.size[h] + 1])
    else g
  }

  /** `headerNode.linkRight(new ColumnNode(..))` while `headerNode` is header `t`:
      the new header `x` joins the header ring after `t`. */
  function AddHeader(g: Arena, t: int, x: int): Arena
  {
    if Sized(g) && 0 <= t < |g.L| && 0 <= x < |g.L| && 0 <= g.R[t] < |g.L| then
      LinkRight(NewColumnNode(g, x), t, x)
    else g
  }

  /** The arena after `new ColumnNode("header")` as node 0 and the first `t`
      iterations of the header loop of `makeDLXBoard`, starting from `g0`. */
  function HeaderRow(g0: Arena, t: nat): Arena
    decreases t
  {
    if t == 0 then (if Sized(g0) && 0 < |g0.L| then NewColumnNode(g0, 0) else g0)
    else AddHeader(HeaderRow(g0, t - 1), t - 1, t)
  }

  /** The node that the node of `c`, the next 1 after `cs`, is linked right of:
      the node of the previous 1 when that is in `c`'s row, else the new node. */
  function Prev(m: int, cs: seq<Cell>, c: Cell): int
  {
    if cs != [] && cs[|cs| - 1].i == c.i then m + |cs| else 1 + m + |cs|
  }

  /** The arena after the nodes of the 1s `cs` are added to `g`, one after another. */
  function Entries(g: Arena, m: nat, cs: seq<Cell>): Arena
    decreases |cs|
  {
    if cs == [] then g
    else
      var init := cs[..|cs| - 1];
      AddNode(Entries(g, m, init), cs[|cs| - 1].j + 1, 1 + m + |init|, Prev(m, init, cs[|cs| - 1]))
  }

  /** Building from `g0`, of `1 + COLS + ROWS * COLS` nodes, `g` holds the header
      row and the nodes of the 1s of the first `i` rows of `grid`; `x` is the next
      free node. */
  predicate RowsBuilt(g: Arena, grid: seq<seq<int>>, i: int, x: int, g0: Arena)
  {
    && 0 < |grid| < MaxInt && Rect(grid, |grid[0]|) && 0 <= i <= |grid|
    && Sized(g0) && |g0.L| == 1 + |grid[0]| + |grid| * |grid[0]|
    && x == 1 + |grid[0]| + |Ones(grid, |grid[0]|, i)|
    && g == Entries(HeaderRow(g0, |grid[0]|), |grid[0]|, Ones(grid, |grid[0]|, i))
  }

  /** The arena `makeDLXBoard(grid)` leaves, starting from `g0`: the header row,
      the nodes of all the 1s, and the root counting the columns. */
  function DLXBoard(g0: Arena, grid: seq<seq<int>>): Arena
    requires 0 < |grid| && Rect(grid, |grid[0]|)
  {
    var cols := |grid[0]|;
    var g := Entries(HeaderRow(g0, cols), cols, Ones(grid, cols, |grid|));
    if 0 < |g.size| then g.(size := g.size[0 := cols]) else g
  }
}

/** The facts one step of the construction relies on, each gathered under one name. */
module GridSteps {
  import opened Rings
  import opened Matrix
  import opened Grid

  /** What `ColumnsGrow` needs: the column rings, the headers' own columns, and
      the bottom of column `h`. */
  ghost predicate ColumnsReady(g: Arena, h: int, x: int, pv: int, m: int, cols: seq<seq<int>>)
  {
    && CanAdd(g, h, x, pv) && Columns(Col(g), g.C, g.size, m, x, cols) && 1 <= h <= m
    && (forall h2 | 1 <= h2 <= m :: g.C[h2] == h2)
    && (var s := [h] + cols[h - 1]; g.U[h] == s[|s| - 1] && g.D[g.U[h]] == h && g.C[g.U[h]] == h)
    && |cols[h - 1]| + 1 < MaxInt
  }

  /** What `RowsGrow` needs: the row rings, and row `i` so far in columns before `h`. */
  ghost predicate RowsReady(g: Arena, h: int, x: int, pv: int, sh: Shape, i: int)
  {
    && CanAdd(g, h, x, pv) && Rows(g, sh) && 0 <= i < |sh.rows| && 1 <= h <= sh.m && h <= |sh.cols|
    && sh.m < sh.n == x == |sh.rowOf|
    && (forall y | y in sh.rows[i] :: 0 <= y < |g.C| && g.C[y] < h)
    && pv == if sh.rows[i] == [] then x else sh.rows[i][|sh.rows[i]| - 1]
  }

  /** What `HeaderRingKept` needs: the header ring, and row `i` so far ending at `pv`. */
  ghost predicate HeaderReady(g: Arena, x: int, pv: int, sh: Shape, i: int)
  {
    && Ring(Row(g), [0] + sh.active) && (forall h | h in sh.active :: 1 <= h <= sh.m)
    && sh.m < x && Has(Row(g), x) && Has(Row(g), pv) && 0 <= i < |sh.rows| && RowOk(Row(g), g.C, sh, i)
    && pv == if sh.rows[i] == [] then x else sh.rows[i][|sh.rows[i]| - 1]
  }

  /** `Built`, as one fact: a call to it stays whole when it is passed along. */
  ghost predicate Assembled(g: Arena, m: nat, r: nat, cs: seq<Cell>)
  {
    Built(g, m, r, cs)
  }

  /** `NextOk`, as one fact. */
  ghost predicate Follows(cs: seq<Cell>, c: Cell, m: int, r: int)
  {
    NextOk(cs, c, m, r)
  }

  /** `EntryReady`, as one fact. */
  ghost predicate Ready(g: Arena, sh: Shape, i: int, j: int, pv: int)
  {
    EntryReady(g, sh, i, j, pv)
  }

  /** `RowsBuilt`, as one fact. */
  predicate RowsLinked(g: Arena, grid: seq<seq<int>>, i: int, x: int, g0: Arena)
  {
    RowsBuilt(g, grid, i, x, g0)
  }

  /** The links one iteration of the inner loop of `makeDLXBoard` follows exist,
      and `col.U` is in column `h`, as `linkBelow` asserts. */
  predicate Linkable(g: Arena, h: int, x: int, pv: int)
  {
    CanAdd(g, h, x, pv) && g.C[g.U[h]] == h
  }
}
