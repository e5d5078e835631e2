/** The dancing-links matrix as `ColumnNode.cover` and `uncover` see it.

    A `Shape` is a ghost description of the rings threaded through an arena:
    node 0 is the root header, nodes 1..m are the column headers (column `j`
    of the 0/1 matrix is node `j + 1`) and nodes m+1..n-1 are the matrix's
    1-entries. `Valid` says that the arena's links realise the shape; `cover`
    and `uncover` are specified here as functions of the arena and the shape. */
module Matrix {
  import opened Rings

  /** Java's `Integer.MAX_VALUE`. */
  const MaxInt: int := 0x7fff_ffff

  datatype Shape = Shape(
    m: nat,                  // number of columns
    n: nat,                  // number of nodes in use
    active: seq<int>,        // the header ring, left to right, without the root
    cols: seq<seq<int>>,     // cols[h - 1]: the column ring of header h, top to bottom, without h
    rows: seq<seq<int>>,     // the row rings, left to right
    rowOf: seq<int>)         // the row ring each 1-entry belongs to

  // ---------------------------------------------------------------------------
  // The invariant
  // ---------------------------------------------------------------------------

  /** Every entry of `s` is a 1-entry node of column `h`. */
  ghost predicate Members(s: seq<int>, C: seq<int>, m: int, n: int, h: int)
  {
    forall x | x in s :: m < x < n && 0 <= x < |C| && C[x] == h
  }

  /** Column `h`'s ring lists exactly `cols[h - 1]` below `h`, and `size[h]` counts it. */
  ghost predicate ColumnOk(col: Chain, C: seq<int>, size: seq<int>, m: int, n: int, cols: seq<seq<int>>, h: int)
    requires 1 <= h <= |cols|
  {
    && Ring(col, [h] + cols[h - 1])
    && 0 <= m && Members(cols[h - 1], C, m, n, h)
    && h < |size| && size[h] == |cols[h - 1]| < MaxInt
  }

  ghost predicate Columns(col: Chain, C: seq<int>, size: seq<int>, m: int, n: int, cols: seq<seq<int>>)
  {
    && |cols| == m && |C| == |size| && m < n <= |C|
    && forall h | 1 <= h <= m :: ColumnOk(col, C, size, m, n, cols, h)
  }

  /** `x` is a 1-entry whose row ring is recorded. */
  ghost predicate InRow(sh: Shape, x: int)
  {
    0 <= x < |sh.rowOf| && 0 <= sh.rowOf[x] < |sh.rows| && x in sh.rows[sh.rowOf[x]]
  }

  /** Row ring `k`: linked left to right, made of 1-entries of distinct columns. */
  ghost predicate RowOk(row: Chain, C: seq<int>, sh: Shape, k: int)
    requires 0 <= k < |sh.rows|
  {
    var s := sh.rows[k];
    && (s != [] ==> Ring(row, s))
    && (forall x | x in s :: sh.m < x < sh.n && x < |sh.rowOf| && sh.rowOf[x] == k)
    && (forall a, b | 0 <= a < b < |s| && 0 <= s[a] < |C| && 0 <= s[b] < |C| :: C[s[a]] != C[s[b]])
  }

  ghost predicate Rows(g: Arena, sh: Shape)
  {
    && Sized(g) && sh.n <= |g.L| && sh.n <= |sh.rowOf|
    && (forall x | sh.m < x < sh.n :: InRow(sh, x) && 1 <= g.C[x] <= sh.m)
    && (forall k | 0 <= k < |sh.rows| :: RowOk(Row(g), g.C, sh, k))
  }

  /** Rows are removed and restored whole: every row met in an active column
      lies, with all its entries, in active columns. */
  ghost predicate Live(g: Arena, sh: Shape)
  {
    forall h, x, y |
      && h in sh.active && 1 <= h <= |sh.cols| && x in sh.cols[h - 1] && InRow(sh, x)
      && y in sh.rows[sh.rowOf[x]] && 0 <= y < |g.C| && 1 <= g.C[y] <= |sh.cols|
      :: g.C[y] in sh.active && y in sh.cols[g.C[y] - 1]
  }

  ghost predicate Valid(g: Arena, sh: Shape)
  {
    && Sized(g)
    && Columns(Col(g), g.C, g.size, sh.m, sh.n, sh.cols)
    && g.C[0] == 0 && (forall h | 1 <= h <= sh.m :: g.C[h] == h)
    && Ring(Row(g), [0] + sh.active) && (forall h | h in sh.active :: 1 <= h <= sh.m)
    && Rows(g, sh)
    && Live(g, sh)
  }

  // ---------------------------------------------------------------------------
  // One step of cover / uncover on a single 1-entry
  // ---------------------------------------------------------------------------

  predicate CanStep(g: Arena, j: int)
  {
    Sized(g) && 0 <= j < |g.L| && 0 <= g.D[j] < |g.L| && 0 <= g.U[j] < |g.L| && 0 <= g.C[j] < |g.L|
  }

  /** The body of `cover`'s inner loop: `j.unlinkUD(); j.C.size--`. */
  function CoverStep(g: Arena, j: int): Arena
  {
    if CanStep(g, j) then
      var g1 := UnlinkUD(g, j);
      g1.(size := g1.size[g.C[j] := g1.size[g.C[j]] - 1])
    else g
  }

  /** The body of `uncover`'s inner loop: `j.C.size++; j.relinkUD()`. */
  function UncoverStep(g: Arena, j: int): Arena
  {
    if CanStep(g, j) then
      var g1 := g.(size := g.size[g.C[j] := g.size[g.C[j]] + 1]);
      RelinkUD(g1, j)
    else g
  }

  /** `CoverStep` applied to `js` from first to last. */
  function CoverSteps(g: Arena, js: seq<int>): (r: Arena)
    ensures r.L == g.L && r.R == g.R && r.C == g.C
    ensures Sized(g) ==> Sized(r)
    decreases |js|
  {
    if js == [] then g else CoverStep(CoverSteps(g, js[..|js| - 1]), js[|js| - 1])
  }

  // ---------------------------------------------------------------------------
  // The order in which cover visits the 1-entries
  // ---------------------------------------------------------------------------

  /** The row ring of `x`, starting at `x` (what `for (j = x.R; j != x; j = j.R)` walks). */
  ghost function RowFrom(sh: Shape, x: int): (r: seq<int>)
    ensures |r| > 0 && r[0] == x
  {
    if InRow(sh, x) then
      var s := sh.rows[sh.rowOf[x]];
      var p := IndexOf(s, x);
      s[p..] + s[..p]
    else [x]
  }

  /** The other entries of `x`'s row, left to right from `x`. */
  ghost function Others(sh: Shape, x: int): seq<int>
  {
    RowFrom(sh, x)[1..]
  }

  /** The other entries of the rows of `xs`, row after row. */
  ghost function Flat(sh: Shape, xs: seq<int>): seq<int>
    decreases |xs|
  {
    if xs == [] then [] else Flat(sh, xs[..|xs| - 1]) + Others(sh, xs[|xs| - 1])
  }

  /** Every 1-entry that `cover` unlinks from its column, in the order it does so. */
  ghost function CoverList(sh: Shape, c: int): seq<int>
  {
    if 1 <= c <= |sh.cols| then Flat(sh, sh.cols[c - 1]) else []
  }

  function Drop(s: seq<int>, j: int): seq<int>
  {
    if j in s then Without(s, IndexOf(s, j)) else s
  }

  /** The column rings once `j` has left its column. */
  function RemoveNode(cols: seq<seq<int>>, C: seq<int>, j: int): (r: seq<seq<int>>)
    ensures |r| == |cols|
  {
    if 0 <= j < |C| && 1 <= C[j] <= |cols| then cols[C[j] - 1 := Drop(cols[C[j] - 1], j)] else cols
  }

  /** The column rings once every entry of `js` has left its column. */
  function StripCols(cols: seq<seq<int>>, C: seq<int>, js: seq<int>): (r: seq<seq<int>>)
    ensures |r| == |cols|
    decreases |js|
  {
    if js == [] then cols else RemoveNode(StripCols(cols, C, js[..|js| - 1]), C, js[|js| - 1])
  }

  // ---------------------------------------------------------------------------
  // cover and uncover of a whole column
  // ---------------------------------------------------------------------------

  lemma ActiveHeader(g: Arena, sh: Shape, c: int)
    requires Valid(g, sh) && c in sh.active
    ensures 1 <= c <= sh.m && Has(Row(g), c) && Has(Row(g), g.R[c]) && Has(Row(g), g.L[c])
    ensures Linked(Row(g), c)
    ensures Ring(Row(UnlinkLR(g, c)), [0] + Drop(sh.active, c))
    ensures forall y | Has(Row(g), y) && y !in [0] + sh.active ::
      UnlinkLR(g, c).R[y] == g.R[y] && UnlinkLR(g, c).L[y] == g.L[y]
  {
    var s := [0] + sh.active;
    var k := 1 + IndexOf(sh.active, c);
    assert s[k] == c;
    UnlinkRemoves(Row(g), s, k);
    assert Without(s, k) == [0] + Drop(sh.active, c);
  }

  /** The state `cover()` leaves: the header is out of the header ring and
      every entry of `CoverList` is out of its column. */
  ghost function CoverResult(g: Arena, sh: Shape, c: int): Arena
    requires Valid(g, sh) && c in sh.active
  {
    ActiveHeader(g, sh, c);
    CoverSteps(UnlinkLR(g, c), CoverList(sh, c))
  }

  /** The state part-way through `cover()`, after the first `t` entries of `CoverList`. */
  ghost function CoverPrefix(g: Arena, sh: Shape, c: int, t: int): Arena
    requires Valid(g, sh) && c in sh.active && 0 <= t <= |CoverList(sh, c)|
  {
    ActiveHeader(g, sh, c);
    CoverSteps(UnlinkLR(g, c), CoverList(sh, c)[..t])
  }

  /** The rings after `cover()`: the header and the conflicting rows are gone. */
  ghost function CoverShape(sh: Shape, C: seq<int>, c: int): Shape
  {
    sh.(active := Drop(sh.active, c), cols := StripCols(sh.cols, C, CoverList(sh, c)))
  }
}
