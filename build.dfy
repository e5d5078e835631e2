/** Why the arena that `makeDLXBoard` builds is a valid dancing-links matrix:
    the cells of a grid as nodes of rings, and the steps that keep the arena
    `Valid` while it is built. */
module BoardFacts {
  import opened Rings
  import opened Matrix
  import opened Grid
  import opened GridSteps

  // ---------------------------------------------------------------------------
  // The cells and the nodes of a row or a column
  // ---------------------------------------------------------------------------

  lemma {:induction false} ColumnNodesHas(cs: seq<Cell>, base: int, j: int, x: int)
    ensures x in ColumnNodes(cs, base, j) <==> base <= x < base + |cs| && cs[x - base].j == j
    decreases |cs|
  {
    if cs != [] {
      var init := cs[..|cs| - 1];
      ColumnNodesHas(init, base, j, x);
      if base <= x < base + |init| { assert cs[x - base] == init[x - base]; }
    }
  }

  lemma {:induction false} RowNodesHas(cs: seq<Cell>, base: int, i: int, x: int)
    ensures x in RowNodes(cs, base, i) <==> base <= x < base + |cs| && cs[x - base].i == i
    decreases |cs|
  {
    if cs != [] {
      var init := cs[..|cs| - 1];
      RowNodesHas(init, base, i, x);
      if base <= x < base + |init| { assert cs[x - base] == init[x - base]; }
    }
  }

  /** A new cell adds its node at the end of its row and of its column and nowhere else. */
  lemma ShapeSnoc(m: nat, r: nat, cs: seq<Cell>, c: Cell)
    requires 0 <= c.i < r && 0 <= c.j < m
    ensures ShapeOf(m, r, cs + [c]) == Extend(ShapeOf(m, r, cs), c.i, c.j)
  {
    var base := 1 + m;
    var cs' := cs + [c];
    assert cs'[..|cs'| - 1] == cs;
    var sh := ShapeOf(m, r, cs);
    var sh' := ShapeOf(m, r, cs');
    var ex := Extend(sh, c.i, c.j);
    forall j | 0 <= j < m ensures sh'.cols[j] == ex.cols[j] {
      assert ColumnNodes(cs', base, j) == ColumnNodes(cs, base, j) + (if c.j == j then [base + |cs|] else []);
    }
    forall i | 0 <= i < r ensures sh'.rows[i] == ex.rows[i] {
      assert RowNodes(cs', base, i) == RowNodes(cs, base, i) + (if c.i == i then [base + |cs|] else []);
    }
    assert sh'.cols == ex.cols;
    assert sh'.rows == ex.rows;
    assert sh'.rowOf == ex.rowOf;
  }

  /** Row-major order bounds how many cells of column `j` come up to the last cell. */
  lemma {:induction false} ColumnNodesBound(cs: seq<Cell>, m: int, r: int, base: int, j: int)
    requires CellsOk(cs, m, r) && cs != []
    ensures |ColumnNodes(cs, base, j)| <= if cs[|cs| - 1].j >= j then cs[|cs| - 1].i + 1 else cs[|cs| - 1].i
    decreases |cs|
  {
    var init := cs[..|cs| - 1];
    if init != [] {
      assert CellsOk(init, m, r) by {
        forall a, b | 0 <= a < b < |init| ensures Before(init[a], init[b]) {
          assert init[a] == cs[a] && init[b] == cs[b];
        }
      }
      ColumnNodesBound(init, m, r, base, j);
      assert Before(cs[|cs| - 2], cs[|cs| - 1]);
    }
  }

  /** Which node ends row `i`, when the next cell is in row `i`. */
  lemma RowNodesLast(cs: seq<Cell>, base: int, i: int)
    ensures cs != [] && cs[|cs| - 1].i == i ==>
      RowNodes(cs, base, i) != [] && RowNodes(cs, base, i)[|RowNodes(cs, base, i)| - 1] == base + |cs| - 1
    ensures (forall k | 0 <= k < |cs| :: cs[k].i < i) ==> RowNodes(cs, base, i) == []
  {
    if forall k | 0 <= k < |cs| :: cs[k].i < i {
      if RowNodes(cs, base, i) != [] {
        var y := RowNodes(cs, base, i)[0];
        RowNodesHas(cs, base, i, y);
      }
    }
  }

  // ---------------------------------------------------------------------------
  // Adding one 1-entry keeps the matrix valid
  // ---------------------------------------------------------------------------

  /** The fields after `AddNode`. */
  lemma AddNodeFields(g: Arena, h: int, x: int, prev: int)
    requires CanAdd(g, h, x, prev)
    ensures Sized(AddNode(g, h, x, prev)) && |AddNode(g, h, x, prev).L| == |g.L|
    ensures AddNode(g, h, x, prev).C == g.C[x := h]
    ensures AddNode(g, h, x, prev).size == g.size[h := g.size[h] + 1]
    ensures Col(AddNode(g, h, x, prev)) == Splice(Alone(Col(g), x), g.U[h], x)
    ensures Row(AddNode(g, h, x, prev)) == Splice(Alone(Row(g), x), prev, x)
  {
  }

  /** The bottom of column `j + 1` and the end of row `i` are where `AddNode` expects them. */
  lemma EntryLinks(g: Arena, sh: Shape, i: int, j: int, pv: int)
    requires Ready(g, sh, i, j, pv)
    ensures CanAdd(g, j + 1, sh.n, pv)
    ensures var s := [j + 1] + sh.cols[j]; g.U[j + 1] == s[|s| - 1] && g.D[g.U[j + 1]] == j + 1
    ensures g.C[g.U[j + 1]] == j + 1
    ensures sh.rows[i] != [] ==> Ring(Row(g), sh.rows[i]) && g.R[pv] == sh.rows[i][0]
  {
    var h := j + 1;
    var s := [h] + sh.cols[j];
    assert ColumnOk(Col(g), g.C, g.size, sh.m, sh.n, sh.cols, h);
    var u := s[|s| - 1];
    assert g.U[h] == u && g.D[u] == h;
    if |s| > 1 {
      assert u in sh.cols[j];
    }
    if sh.rows[i] != [] {
      assert RowOk(Row(g), g.C, sh, i);
    }
  }

  /** The column that receives the new node gains it at its bottom. */
  lemma ColumnGrows(g: Arena, h: int, x: int, pv: int, m: int, cols: seq<seq<int>>, cols': seq<seq<int>>)
    requires ColumnsReady(g, h, x, pv, m, cols) && cols' == cols[h - 1 := cols[h - 1] + [x]]
    ensures var g' := AddNode(g, h, x, pv); ColumnOk(Col(g'), g'.C, g'.size, m, x + 1, cols', h)
  {
    AddNodeFields(g, h, x, pv);
    assert ColumnOk(Col(g), g.C, g.size, m, x, cols, h);
    var s := [h] + cols[h - 1];
    assert x !in s;
    AloneAppends(Col(g), s, x);
    assert s + [x] == [h] + cols'[h - 1];
  }

  /** A column that does not receive the new node keeps its ring and its count. */
  lemma ColumnKept(g: Arena, h: int, x: int, pv: int, m: int, cols: seq<seq<int>>, h2: int)
    requires ColumnsReady(g, h, x, pv, m, cols) && 1 <= h2 <= m && h2 != h
    ensures var g' := AddNode(g, h, x, pv); ColumnOk(Col(g'), g'.C, g'.size, m, x + 1, cols, h2)
  {
    AddNodeFields(g, h, x, pv);
    assert ColumnOk(Col(g), g.C, g.size, m, x, cols, h2);
    var s2 := [h2] + cols[h2 - 1];
    assert g.U[h] !in s2 && h !in s2 && x !in s2;
    AloneElsewhere(Col(g), s2, g.U[h], x);
  }

  /** Every column ring survives the new node, and column `h` gains it at its bottom. */

  lemma ColumnsGrow(g: Arena, sh: Shape, i: int, j: int, pv: int)
    requires ColumnsReady(g, j + 1, sh.n, pv, sh.m, sh.cols) && 0 <= i < |sh.rows|
    ensures var g' := AddNode(g, j + 1, sh.n, pv); var sh' := Extend(sh, i, j);
      Columns(Col(g'), g'.C, g'.size, sh'.m, sh'.n, sh'.cols)
  {
    var h, x, m, cols := j + 1, sh.n, sh.m, sh.cols;
    AddNodeFields(g, h, x, pv);
    var g' := AddNode(g, h, x, pv);
    var sh' := Extend(sh, i, j);
    var cols' := sh'.cols;
    assert cols' == cols[h - 1 := cols[h - 1] + [x]] && sh'.m == m && sh'.n == x + 1;
    var n' := x + 1;
    forall h2 | 1 <= h2 <= m ensures ColumnOk(Col(g'), g'.C, g'.size, m, n', cols', h2) {
      if h2 == h {
        ColumnGrows(g, h2, x, pv, m, cols, cols');
      } else {
        ColumnKept(g, h, x, pv, m, cols, h2);
      }
    }
  }

  /** The row that receives the new node gains it at its end; its entries stay
      in distinct columns because the new node's column comes after theirs. */
  lemma RowGrows(g: Arena, h: int, x: int, pv: int, sh: Shape, i: int)
    requires CanAdd(g, h, x, pv) && 0 <= i < |sh.rows| && 1 <= h <= |sh.cols|
    requires sh.m < sh.n == x == |sh.rowOf| && RowOk(Row(g), g.C, sh, i)
    requires forall y | y in sh.rows[i] :: 0 <= y < |g.C| && g.C[y] < h
    requires pv == if sh.rows[i] == [] then x else sh.rows[i][|sh.rows[i]| - 1]
    ensures var g' := AddNode(g, h, x, pv); RowOk(Row(g'), g'.C, Extend(sh, i, h - 1), i)
  {
    AddNodeFields(g, h, x, pv);
    var g' := AddNode(g, h, x, pv);
    var sh' := Extend(sh, i, h - 1);
    var s := sh.rows[i];
    assert x !in s;
    if s == [] {
      AloneRing(Row(g), x);
    } else {
      AloneAppends(Row(g), s, x);
    }
    var s' := sh'.rows[i];
    assert s' == s + [x];
    assert Ring(Row(g'), s');
    forall y | y in s' ensures sh'.m < y < sh'.n && y < |sh'.rowOf| && sh'.rowOf[y] == i {
      if y != x { assert y in s; }
    }
    forall a, b | 0 <= a < b < |s'| && 0 <= s'[a] < |g'.C| && 0 <= s'[b] < |g'.C|
      ensures g'.C[s'[a]] != g'.C[s'[b]]
    {
      assert s'[a] == s[a] && s[a] in s;
      if b < |s| { assert s'[b] == s[b]; }
    }
  }

  /** A row that does not receive the new node keeps its ring. */
  lemma RowKept(g: Arena, h: int, x: int, pv: int, sh: Shape, i: int, k: int)
    requires CanAdd(g, h, x, pv) && 0 <= i < |sh.rows| && 0 <= k < |sh.rows| && k != i && 0 <= h - 1 < |sh.cols|
    requires sh.n == x == |sh.rowOf| && RowOk(Row(g), g.C, sh, i) && RowOk(Row(g), g.C, sh, k)
    requires pv == if sh.rows[i] == [] then x else sh.rows[i][|sh.rows[i]| - 1]
    ensures var g' := AddNode(g, h, x, pv); RowOk(Row(g'), g'.C, Extend(sh, i, h - 1), k)
  {
    AddNodeFields(g, h, x, pv);
    var s := sh.rows[k];
    if s != [] {
      assert x !in s && pv !in s;
      if pv != x {
        assert Ring(Row(g), sh.rows[i]) && g.R[pv] == sh.rows[i][0] && g.R[pv] in sh.rows[i];
      }
      AloneElsewhere(Row(g), s, pv, x);
    }
  }

  /** Every row ring survives the new node, and row `i` gains it at its end. */

  lemma RowsGrow(g: Arena, sh: Shape, i: int, j: int, pv: int)
    requires RowsReady(g, j + 1, sh.n, pv, sh, i)
    ensures Rows(AddNode(g, j + 1, sh.n, pv), Extend(sh, i, j))
  {
    var h, x := j + 1, sh.n;
    AddNodeFields(g, h, x, pv);
    var g' := AddNode(g, h, x, pv);
    var sh' := Extend(sh, i, j);
    assert sh' == Extend(sh, i, h - 1);
    forall k | 0 <= k < |sh'.rows| ensures RowOk(Row(g'), g'.C, sh', k) {
      if k == i {
        RowGrows(g, h, x, pv, sh, i);
      } else {
        RowKept(g, h, x, pv, sh, i, k);
      }
    }
    forall y | sh'.m < y < sh'.n ensures InRow(sh', y) && 1 <= g'.C[y] <= sh'.m {
      if y < x {
        assert InRow(sh, y);
        var k := sh.rowOf[y];
        assert sh'.rowOf[y] == k && sh.rows[k] <= sh'.rows[k];
      }
    }
  }

  /** With every column active, each 1-entry in its own column ring makes whole rows live. */
  lemma PlacedLive(g: Arena, sh: Shape)
    requires Placed(g, sh) && Rows(g, sh) && sh.active == Headers(sh.m) && |sh.cols| == sh.m
    ensures Live(g, sh)
  {
    forall h, x, y |
      && h in sh.active && 1 <= h <= |sh.cols| && x in sh.cols[h - 1] && InRow(sh, x)
      && y in sh.rows[sh.rowOf[x]] && 0 <= y < |g.C| && 1 <= g.C[y] <= |sh.cols|
      ensures g.C[y] in sh.active && y in sh.cols[g.C[y] - 1]
    {
      assert RowOk(Row(g), g.C, sh, sh.rowOf[x]);
      assert sh.active[g.C[y] - 1] == g.C[y];
    }
  }

  /** The arena realises the shape, each 1-entry in the column ring of its column. */
  ghost predicate Holds(g: Arena, sh: Shape)
  {
    Valid(g, sh) && Placed(g, sh)
  }

  /** The header ring does not meet the new node: it is spliced after an entry of its own row. */
  lemma HeaderRingKept(g: Arena, sh: Shape, i: int, j: int, pv: int)
    requires CanAdd(g, j + 1, sh.n, pv) && 0 <= j < |sh.cols| && HeaderReady(g, sh.n, pv, sh, i)
    ensures Ring(Row(AddNode(g, j + 1, sh.n, pv)), [0] + Extend(sh, i, j).active)
  {
    var x := sh.n;
    AddNodeFields(g, j + 1, x, pv);
    var hs := [0] + sh.active;
    if pv != x {
      assert pv in sh.rows[i] && sh.rows[i][0] in sh.rows[i];
    }
    assert x !in hs && pv !in hs;
    AloneElsewhere(Row(g), hs, pv, x);
  }

  /** The new node is placed in the column it joins; the other 1-entries stay where they were. */
  lemma PlacedGrows(g: Arena, sh: Shape, i: int, j: int, pv: int)
    requires CanAdd(g, j + 1, sh.n, pv) && Placed(g, sh) && 0 <= i < |sh.rows| && 0 <= j < |sh.cols|
    ensures Placed(AddNode(g, j + 1, sh.n, pv), Extend(sh, i, j))
  {
    var h, x := j + 1, sh.n;
    AddNodeFields(g, h, x, pv);
    var g' := AddNode(g, h, x, pv);
    var sh' := Extend(sh, i, j);
    forall y | sh'.m < y < sh'.n
      ensures 0 <= y < |g'.C| && 1 <= g'.C[y] <= |sh'.cols| && y in sh'.cols[g'.C[y] - 1]
    {
      if y < x {
        assert sh.cols[g.C[y] - 1] <= sh'.cols[g.C[y] - 1];
      }
    }
  }

  /** The facts about the arena before one iteration of the inner loop of
      `makeDLXBoard` that the steps above use; `Live` is not among them. */
  ghost predicate EntryParts(g: Arena, sh: Shape, i: int, j: int, pv: int)
  {
    && 0 <= j < sh.m && |sh.cols| == sh.m && sh.active == Headers(sh.m) && sh.n < |g.L|
    && Sized(g) && g.C[0] == 0 && Placed(g, sh)
    && ColumnsReady(g, j + 1, sh.n, pv, sh.m, sh.cols)
    && RowsReady(g, j + 1, sh.n, pv, sh, i)
    && HeaderReady(g, sh.n, pv, sh, i)
  }

  lemma EntryUnpack(g: Arena, sh: Shape, i: int, j: int, pv: int)
    requires Ready(g, sh, i, j, pv)
    ensures EntryParts(g, sh, i, j, pv)
  {
    EntryLinks(g, sh, i, j, pv);
    assert RowOk(Row(g), g.C, sh, i);
  }

  /** The parts of `Valid` other than `Live`, with every column active and every
      1-entry placed, make the arena hold the shape. */
  lemma HoldsFromParts(g: Arena, sh: Shape)
    requires Sized(g) && Columns(Col(g), g.C, g.size, sh.m, sh.n, sh.cols)
    requires g.C[0] == 0 && (forall h | 1 <= h <= sh.m :: g.C[h] == h)
    requires Ring(Row(g), [0] + sh.active) && sh.active == Headers(sh.m)
    requires Rows(g, sh) && Placed(g, sh)
    ensures Holds(g, sh)
  {
    PlacedLive(g, sh);
  }

  /** The arena after `AddNode` holds the matrix with the new 1-entry. */
  lemma PartsKeepValid(g: Arena, sh: Shape, i: int, j: int, pv: int)
    requires EntryParts(g, sh, i, j, pv)
    ensures Holds(AddNode(g, j + 1, sh.n, pv), Extend(sh, i, j))
  {
    var g' := AddNode(g, j + 1, sh.n, pv);
    var sh' := Extend(sh, i, j);
    AddNodeFields(g, j + 1, sh.n, pv);
    ColumnsGrow(g, sh, i, j, pv);
    RowsGrow(g, sh, i, j, pv);
    HeaderRingKept(g, sh, i, j, pv);
    PlacedGrows(g, sh, i, j, pv);
    HoldsFromParts(g', sh');
  }

  /** One iteration of the inner loop of `makeDLXBoard` keeps the matrix valid:
      the arena after `AddNode` holds the matrix with the new 1-entry. */
  lemma EntryKeepsValid(g: Arena, sh: Shape, i: int, j: int, pv: int)
    requires Ready(g, sh, i, j, pv)
    ensures Holds(AddNode(g, j + 1, sh.n, pv), Extend(sh, i, j))
  {
    EntryUnpack(g, sh, i, j, pv);
    PartsKeepValid(g, sh, i, j, pv);
  }

  // ---------------------------------------------------------------------------
  // The grid's 1s one after another
  // ---------------------------------------------------------------------------

  /** What row-major order says about the next 1, `c`, of the grid: its column
      has fewer than `r` 1s so far, the 1s of its row so far lie left of it, and
      the last of them, if any, is the last 1 so far. */
  lemma NextCell(cs: seq<Cell>, m: nat, r: nat, c: Cell)
    requires CellsOk(cs, m, r) && 0 <= c.i < r && 0 <= c.j < m
    requires cs == [] || Before(cs[|cs| - 1], c)
    ensures |ColumnNodes(cs, 1 + m, c.j)| < r
    ensures forall k | 0 <= k < |cs| && cs[k].i == c.i :: cs[k].j < c.j
    ensures cs != [] && cs[|cs| - 1].i == c.i ==>
      RowNodes(cs, 1 + m, c.i) != [] && RowNodes(cs, 1 + m, c.i)[|RowNodes(cs, 1 + m, c.i)| - 1] == m + |cs|
    ensures !(cs != [] && cs[|cs| - 1].i == c.i) ==> RowNodes(cs, 1 + m, c.i) == []
    ensures CellsOk(cs + [c], m, r)
  {
    var base := 1 + m;
    if cs != [] {
      ColumnNodesBound(cs, m, r, base, c.j);
    }
    forall k | 0 <= k < |cs| && cs[k].i == c.i ensures cs[k].j < c.j {
      assert k == |cs| - 1 || Before(cs[k], cs[|cs| - 1]);
    }
    RowNodesLast(cs, base, c.i);
    if !(cs != [] && cs[|cs| - 1].i == c.i) {
      forall k | 0 <= k < |cs| ensures cs[k].i < c.i {
        assert k == |cs| - 1 || Before(cs[k], cs[|cs| - 1]);
      }
      RowNodesLast(cs, base, c.i);
    }
    var cs' := cs + [c];
    forall a, b | 0 <= a < b < |cs'| ensures Before(cs'[a], cs'[b]) {
      if b < |cs| {
        assert cs'[a] == cs[a] && cs'[b] == cs[b];
      } else if a < |cs| - 1 {
        assert Before(cs[a], cs[|cs| - 1]);
      }
    }
  }

  /** The nodes of the 1s of row `i` so far lie in columns up to `j`. */
  lemma RowLeft(g: Arena, m: nat, r: nat, cs: seq<Cell>, i: int, j: int)
    requires Placed(g, ShapeOf(m, r, cs)) && 0 <= i < r
    requires forall k | 0 <= k < |cs| && cs[k].i == i :: cs[k].j < j
    ensures forall y | y in RowNodes(cs, 1 + m, i) :: 0 <= y < |g.C| && g.C[y] <= j
  {
    var base := 1 + m;
    var sh := ShapeOf(m, r, cs);
    forall y | y in RowNodes(cs, base, i) ensures 0 <= y < |g.C| && g.C[y] <= j {
      RowNodesHas(cs, base, i, y);
      assert sh.m < y < sh.n;
      assert 0 <= y < |g.C| && 1 <= g.C[y] <= |sh.cols| && y in sh.cols[g.C[y] - 1];
      assert sh.cols[g.C[y] - 1] == ColumnNodes(cs, base, g.C[y] - 1);
      ColumnNodesHas(cs, base, g.C[y] - 1, y);
    }
  }

  /** Adding the node `x` of the next 1 in row-major order to the bottom of its
      column's header `h` and after `pv` (the node of the previous 1 of its row,
      or the new node itself when it is the first) keeps the arena holding the
      matrix of the 1s so far. */
  lemma BuiltStep(g: Arena, m: nat, r: nat, cs: seq<Cell>, c: Cell, h: int, x: int, pv: int)
    requires Assembled(g, m, r, cs) && Follows(cs, c, m, r)
    requires h == c.j + 1 && x == 1 + m + |cs| && x < |g.L| && pv == Prev(m, cs, c)
    ensures Assembled(AddNode(g, h, x, pv), m, r, cs + [c])
  {
    var sh := ShapeOf(m, r, cs);
    assert sh.n == x;
    BuiltReady(g, m, r, cs, c, pv);
    EntryKeepsValid(g, sh, c.i, c.j, pv);
    SameAddNode(g, c.j + 1, h, sh.n, x, pv);
    ShapeSnoc(m, r, cs, c);
  }

  /** `AddNode` with equal arguments, for arguments that are equal only by arithmetic. */
  lemma SameAddNode(g: Arena, h: int, h': int, x: int, x': int, pv: int)
    requires h == h' && x == x'
    ensures AddNode(g, h, x, pv) == AddNode(g, h', x', pv)
  {
  }

  /** `Linkable` with equal arguments, for arguments that are equal only by arithmetic. */
  lemma SameLinkable(g: Arena, h: int, h': int, x: int, x': int, pv: int)
    requires h == h' && x == x' && Linkable(g, h, x, pv)
    ensures Linkable(g, h', x', pv)
  {
  }

  /** The arena holding the 1s so far is ready for the next one. */
  lemma BuiltReady(g: Arena, m: nat, r: nat, cs: seq<Cell>, c: Cell, pv: int)
    requires Assembled(g, m, r, cs) && Follows(cs, c, m, r)
    requires 1 + m + |cs| < |g.L|
    requires pv == Prev(m, cs, c)
    ensures Ready(g, ShapeOf(m, r, cs), c.i, c.j, pv) && CellsOk(cs + [c], m, r)
  {
    assert NextOk(cs, c, m, r) && Built(g, m, r, cs);
    var sh := ShapeOf(m, r, cs);
    assert sh.rows[c.i] == RowNodes(cs, 1 + m, c.i) && sh.cols[c.j] == ColumnNodes(cs, 1 + m, c.j);
    NextCell(cs, m, r, c);
    RowLeft(g, m, r, cs, c.i, c.j);
    assert Valid(g, sh) && Placed(g, sh) && sh.active == Headers(m);
    assert pv == if cs != [] && cs[|cs| - 1].i == c.i then m + |cs| else 1 + m + |cs|;
    assert |sh.rowOf| == sh.n == 1 + m + |cs| && |sh.rows| == r && |sh.cols| == m;
    assert |sh.cols[c.j]| + 1 < MaxInt;
    assert pv == if sh.rows[c.i] == [] then sh.n else sh.rows[c.i][|sh.rows[c.i]| - 1];    assert EntryReady(g, sh, c.i, c.j, pv);
  }

  // ---------------------------------------------------------------------------
  // The header row
  // ---------------------------------------------------------------------------

  /** Before any 1 has a node, the matrix is the header ring over empty columns. */
  lemma EmptyShape(t: nat, r: nat)
    ensures ShapeOf(t, r, []) == Shape(t, 1 + t, Headers(t), seq(t, _ => []), seq(r, _ => []), seq(1 + t, _ => 0))
  {
    assert seq(1 + t, _ => 0) + seq(0, k requires 0 <= k < 0 => 0) == seq(1 + t, _ => 0);
  }

  /** `new ColumnNode("header")` on an empty arena holds the matrix with no columns. */
  lemma StartBuilt(g: Arena, r: nat)
    requires Sized(g) && 1 <= |g.L|
    ensures Assembled(NewColumnNode(g, 0), 0, r, [])
  {
    var g' := NewColumnNode(g, 0);
    EmptyShape(0, r);
    var sh := ShapeOf(0, r, []);
    assert Ring(Row(g'), [0] + sh.active) by { assert [0] + sh.active == [0]; }
    assert Rows(g', sh) by {
      forall k | 0 <= k < |sh.rows| ensures RowOk(Row(g'), g'.C, sh, k) {
        assert sh.rows[k] == [];
      }
    }
  }

  /** `headerNode.linkRight(new ColumnNode(..))` after the last header `t` adds
      the empty column `x`, that is `t + 1`, at the end of the header ring. */
  lemma HeaderStep(g: Arena, t: nat, x: nat, r: nat)
    requires Assembled(g, t, r, []) && x == t + 1 && x < |g.L|
    ensures Assembled(AddHeader(g, t, x), x, r, []) && Sized(AddHeader(g, t, x)) && |AddHeader(g, t, x).L| == |g.L|
  {
    HeaderRing(g, t, x, r);
    EmptyShape(t, r);
    EmptyShape(x, r);
    var sh := ShapeOf(t, r, []);
    var sh' := ShapeOf(x, r, []);
    var g' := AddHeader(g, t, x);
    forall h | 1 <= h <= x ensures ColumnOk(Col(g'), g'.C, g'.size, sh'.m, sh'.n, sh'.cols, h) {
      assert sh'.cols[h - 1] == [];
      if h < x {
        assert ColumnOk(Col(g), g.C, g.size, sh.m, sh.n, sh.cols, h);
        assert sh.cols[h - 1] == [];
        RingFrame(Col(g), Col(g'), [h]);
      }
    }
    assert Rows(g', sh') by {
      forall k | 0 <= k < |sh'.rows| ensures RowOk(Row(g'), g'.C, sh', k) {
        assert sh'.rows[k] == [];
      }
    }
  }

  /** Linking header `x = t + 1` after the last header `t` extends the header
      ring by `x` and leaves `x` alone in its column. */
  lemma HeaderRing(g: Arena, t: nat, x: nat, r: nat)
    requires Assembled(g, t, r, []) && x == t + 1 && x < |g.L|
    ensures var g' := AddHeader(g, t, x);
      && Sized(g') && |g'.L| == |g.L| && Ring(Row(g'), [0] + Headers(x))
      && Col(g') == Alone(Col(g), x) && g'.C == g.C[x := x] && g'.size == g.size[x := 0]
  {
    HeaderLast(g, t, r);
    EmptyShape(t, r);
    var g1 := NewColumnNode(g, x);
    var hs := [0] + Headers(t);
    assert Ring(Row(g), hs) && hs[|hs| - 1] == t;
    assert Row(g1) == Alone(Row(g), x);
    AloneAppends(Row(g), hs, x);
    var g' := LinkRight(g1, t, x);
    assert Row(g') == Splice(Alone(Row(g), x), t, x);
    assert Col(g') == Alone(Col(g), x);
    assert hs + [x] == [0] + Headers(x);
  }

  /** The last header links back to the root: `headerNode.R.C` is the root. */
  lemma HeaderLast(g: Arena, t: nat, r: nat)
    requires Assembled(g, t, r, [])
    ensures 0 <= t < |g.R| && 0 <= g.R[t] < |g.C| && g.R[t] == 0 && g.C[0] == 0
  {
    EmptyShape(t, r);
    var hs := [0] + Headers(t);
    assert Ring(Row(g), hs) && hs[|hs| - 1] == t;
  }

  /** `headerNode.size = COLS`: the root's count is not part of the matrix. */
  lemma RootSize(g: Arena, m: nat, r: nat, cs: seq<Cell>, v: int)
    requires Assembled(g, m, r, cs)
    ensures Built(g.(size := g.size[0 := v]), m, r, cs)
  {
    ValidRootSize(g, ShapeOf(m, r, cs), v);
  }

  lemma ValidRootSize(g: Arena, sh: Shape, v: int)
    requires Valid(g, sh)
    ensures Valid(g.(size := g.size[0 := v]), sh)
  {
    var g' := g.(size := g.size[0 := v]);
    assert Col(g') == Col(g) && Row(g') == Row(g) && g'.C == g.C;
    forall h | 1 <= h <= sh.m ensures ColumnOk(Col(g'), g'.C, g'.size, sh.m, sh.n, sh.cols, h) {
      assert ColumnOk(Col(g), g.C, g.size, sh.m, sh.n, sh.cols, h);
    }
    assert Rows(g', sh) by {
      forall k | 0 <= k < |sh.rows| ensures RowOk(Row(g'), g'.C, sh, k) {
        assert RowOk(Row(g), g.C, sh, k);
      }
    }
  }

  // ---------------------------------------------------------------------------
  // The 1s of the grid
  // ---------------------------------------------------------------------------

  /** The 1s of row `i` left of column `j` are at most `j` cells of that row and those columns. */
  lemma {:induction false} RowOnesIn(row: seq<int>, i: int, j: int)
    requires 0 <= j <= |row|
    ensures |RowOnes(row, i, j)| <= j
    ensures forall k | 0 <= k < |RowOnes(row, i, j)| :: RowOnes(row, i, j)[k].i == i && 0 <= RowOnes(row, i, j)[k].j < j
    decreases j
  {
    if j > 0 {
      RowOnesIn(row, i, j - 1);
    }
  }

  /** The 1s of row `i` left of column `j` are exactly the cells there that hold 1. */
  lemma {:induction false} RowOnesExact(row: seq<int>, i: int, j: int)
    requires 0 <= j <= |row|
    ensures forall c :: c in RowOnes(row, i, j) <==> c.i == i && 0 <= c.j < j && row[c.j] == 1
    decreases j
  {
    if j > 0 {
      RowOnesExact(row, i, j - 1);
    }
  }

  /** The 1s of the first `i` rows are cells of those rows and of the grid's columns, at most `m` per row. */
  lemma {:induction false} OnesIn(M: seq<seq<int>>, m: nat, i: int)
    requires Rect(M, m) && 0 <= i <= |M|
    ensures |Ones(M, m, i)| <= i * m
    ensures forall k | 0 <= k < |Ones(M, m, i)| :: 0 <= Ones(M, m, i)[k].i < i && 0 <= Ones(M, m, i)[k].j < m
    decreases i
  {
    if i > 0 {
      OnesIn(M, m, i - 1);
      assert |M[i - 1]| >= m;
      RowOnesIn(M[i - 1], i - 1, m);
      var a := Ones(M, m, i - 1);
      var b := RowOnes(M[i - 1], i - 1, m);
      var cs: seq<Cell> := a + b;
      assert Ones(M, m, i) == cs;
      forall k | 0 <= k < |cs| ensures 0 <= cs[k].i < i && 0 <= cs[k].j < m {
        if k >= |a| { assert cs[k] == b[k - |a|]; }
      }
      assert (i - 1) * m + m == i * m;
    }
  }

  /** The 1s of the first `i` rows are exactly the cells of those rows that hold 1. */
  lemma {:induction false} OnesExact(M: seq<seq<int>>, m: nat, i: int)
    requires Rect(M, m) && 0 <= i <= |M|
    ensures forall c :: c in Ones(M, m, i) <==> 0 <= c.i < i && 0 <= c.j < m && M[c.i][c.j] == 1
    decreases i
  {
    if i > 0 {
      OnesExact(M, m, i - 1);
      assert |M[i - 1]| >= m;
      RowOnesExact(M[i - 1], i - 1, m);
    }
  }

  /** Where the next cell, `(i, j)`, goes in the row-major list of 1s, given the
      1s `before` of the rows above: after the last 1 so far, which is in row `i`
      exactly when row `i` already has a 1 left of `j`, and within the room
      `makeDLXBoard`'s arena has for nodes. */
  lemma NextInRow(before: seq<Cell>, row: seq<int>, i: int, j: int, cols: nat, rows: nat)
    requires 0 <= i < rows && 0 <= j < cols <= |row|
    requires (forall k | 0 <= k < |before| :: before[k].i < i) && |before| <= i * cols
    ensures var cs := before + RowOnes(row, i, j);
      && (cs == [] || Before(cs[|cs| - 1], Cell(i, j)))
      && ((cs != [] && cs[|cs| - 1].i == i) <==> RowOnes(row, i, j) != [])
      && |cs| < rows * cols
    ensures row[j] == 1 ==> before + RowOnes(row, i, j) + [Cell(i, j)] == before + RowOnes(row, i, j + 1)
    ensures row[j] != 1 ==> RowOnes(row, i, j + 1) == RowOnes(row, i, j)
  {
    var b := RowOnes(row, i, j);
    var cs := before + b;
    RowOnesIn(row, i, j);
    if b != [] {
      assert cs[|cs| - 1] == b[|b| - 1];
    } else if before != [] {
      assert cs[|cs| - 1] == before[|before| - 1];
    }
    RoomFor(i, rows, cols);
    assert before + b + [Cell(i, j)] == before + (b + [Cell(i, j)]);
  }

  /** Row `i` and the rows before it fit in `r` rows of `m`. */
  lemma RoomFor(i: nat, r: nat, m: nat)
    requires i < r
    ensures i * m + m <= r * m
  {
    var d := r - i - 1;
    assert r * m == i * m + m + d * m;
  }

  /** The room for the node `x` of the next 1 and the links `AddNode` follows to
      put it below the bottom of its column's header `h` and after `pv`. */
  lemma BuiltLinks(g: Arena, m: nat, r: nat, cs: seq<Cell>, c: Cell, h: int, x: int, pv: int)
    requires Assembled(g, m, r, cs) && Follows(cs, c, m, r)
    requires h == c.j + 1 && x == 1 + m + |cs| && x < |g.L| && pv == Prev(m, cs, c)
    ensures Linkable(g, h, x, pv)
  {
    var sh := ShapeOf(m, r, cs);
    BuiltReady(g, m, r, cs, c, pv);
    EntryLinks(g, sh, c.i, c.j, pv);
    SameLinkable(g, c.j + 1, h, sh.n, x, pv);
  }

  /** The calls of one iteration of the inner loop of `makeDLXBoard` find the
      links they need: `col.U.linkBelow(newNode)` after `new DancingNode(col)`,
      then `prev.linkRight(newNode)`. */
  lemma AddNodeSteps(g: Arena, h: int, x: int, pv: int)
    requires Linkable(g, h, x, pv)
    ensures var g1 := NewNode(g, x, h);
      && g1.U[h] == g.U[h] && Has(Col(g1), g1.U[h]) && Has(Col(g1), x) && Has(Col(g1), g1.D[g1.U[h]])
      && g1.C[g1.U[h]] == g1.C[x]
    ensures var g1 := NewNode(g, x, h); var g2 := LinkBelow(g1, g1.U[h], x);
      Has(Row(g2), pv) && Has(Row(g2), x) && Has(Row(g2), g2.R[pv])
  {
  }

  /** The 1s of a row come left to right. */
  lemma {:induction false} RowOnesSorted(row: seq<int>, i: int, j: int)
    requires 0 <= j <= |row|
    ensures forall a, b | 0 <= a < b < |RowOnes(row, i, j)| :: RowOnes(row, i, j)[a].j < RowOnes(row, i, j)[b].j
    decreases j
  {
    if j > 0 {
      RowOnesSorted(row, i, j - 1);
      RowOnesIn(row, i, j - 1);
      var s := RowOnes(row, i, j - 1);
      var t := RowOnes(row, i, j);
      forall a, b | 0 <= a < b < |t| ensures t[a].j < t[b].j {
        assert t[a] == s[a];
        if b < |s| {
          assert t[b] == s[b];
        } else {
          assert t[b] == Cell(i, j - 1);
        }
      }
    }
  }

  /** The 1s of the rows above row `i`, then 1s of row `i` left to right, are in
      row-major order. */
  lemma AppendRow(a: seq<Cell>, b: seq<Cell>, m: int, r: int, i: int)
    requires CellsOk(a, m, r) && 0 <= i < r
    requires forall k | 0 <= k < |a| :: a[k].i < i
    requires forall k | 0 <= k < |b| :: b[k].i == i && 0 <= b[k].j < m
    requires forall p, q | 0 <= p < q < |b| :: b[p].j < b[q].j
    ensures CellsOk(a + b, m, r)
  {
    var cs := a + b;
    forall k | 0 <= k < |cs| ensures 0 <= cs[k].i < r && 0 <= cs[k].j < m {
      if k >= |a| {
        assert cs[k] == b[k - |a|];
      }
    }
    forall p, q | 0 <= p < q < |cs| ensures Before(cs[p], cs[q]) {
      if q < |a| {
        assert cs[p] == a[p] && cs[q] == a[q];
      } else if p < |a| {
        assert cs[p] == a[p] && cs[q] == b[q - |a|];
      } else {
        assert cs[p] == b[p - |a|] && cs[q] == b[q - |a|];
      }
    }
  }

  /** The 1s of the first `i` rows are listed in row-major order. */
  lemma {:induction false} OnesOk(M: seq<seq<int>>, m: nat, i: int)
    requires Rect(M, m) && 0 <= i <= |M|
    ensures CellsOk(Ones(M, m, i), m, |M|)
    decreases i
  {
    if i > 0 {
      OnesOk(M, m, i - 1);
      OnesIn(M, m, i - 1);
      assert |M[i - 1]| >= m;
      RowOnesIn(M[i - 1], i - 1, m);
      RowOnesSorted(M[i - 1], i - 1, m);
      AppendRow(Ones(M, m, i - 1), RowOnes(M[i - 1], i - 1, m), m, |M|, i - 1);
    }
  }

  // ---------------------------------------------------------------------------
  // The arena makeDLXBoard builds
  // ---------------------------------------------------------------------------

  /** The root and the first `t` headers hold the matrix of `t` empty columns. */
  lemma {:induction false} HeaderRowBuilt(g0: Arena, t: nat, r: nat)
    requires Sized(g0) && t < |g0.L|
    ensures Assembled(HeaderRow(g0, t), t, r, []) && Sized(HeaderRow(g0, t)) && |HeaderRow(g0, t).L| == |g0.L|
    decreases t
  {
    if t == 0 {
      StartBuilt(g0, r);
    } else {
      HeaderRowBuilt(g0, t - 1, r);
      HeaderStep(HeaderRow(g0, t - 1), t - 1, t, r);
    }
  }

  /** After `t` iterations of the header loop, header `t` links back to the root,
      which is its own column: `headerNode.R.C` is the root. */
  lemma HeaderRowLinks(g0: Arena, t: nat)
    requires Sized(g0) && t < |g0.L|
    ensures var g := HeaderRow(g0, t); Sized(g) && |g.L| == |g0.L| && g.R[t] == 0 && g.C[0] == 0
  {
    HeaderRowBuilt(g0, t, 0);
    HeaderLast(HeaderRow(g0, t), t, 0);
  }

  /** Adding nodes keeps the six fields of one length. */
  lemma {:induction false} EntriesSized(g: Arena, m: nat, cs: seq<Cell>)
    requires Sized(g)
    ensures Sized(Entries(g, m, cs)) && |Entries(g, m, cs).L| == |g.L|
    decreases |cs|
  {
    if cs != [] {
      var init := cs[..|cs| - 1];
      var c := cs[|cs| - 1];
      EntriesSized(g, m, init);
      var gi := Entries(g, m, init);
      if CanAdd(gi, c.j + 1, 1 + m + |init|, Prev(m, init, c)) {
        AddNodeFields(gi, c.j + 1, 1 + m + |init|, Prev(m, init, c));
      }
    }
  }

  /** The next 1, `c`, adds its node `x` to its column's header `h`, after the
      nodes of the 1s `cs` before it. */
  lemma EntriesSnoc(g: Arena, m: nat, cs: seq<Cell>, c: Cell, h: int, x: int, pv: int)
    requires h == c.j + 1 && x == 1 + m + |cs| && pv == Prev(m, cs, c)
    ensures Entries(g, m, cs + [c]) == AddNode(Entries(g, m, cs), h, x, pv)
  {
    var cs' := cs + [c];
    var init, last := cs'[..|cs'| - 1], cs'[|cs'| - 1];
    assert init == cs && last == c;
    SameAddNode(Entries(g, m, init), last.j + 1, h, 1 + m + |init|, x, pv);
  }

  /** A row-major list without its last cell is still one, and that cell comes last. */
  lemma InitOk(cs: seq<Cell>, m: int, r: int)
    requires CellsOk(cs, m, r) && cs != [] && r < MaxInt
    ensures CellsOk(cs[..|cs| - 1], m, r) && Follows(cs[..|cs| - 1], cs[|cs| - 1], m, r)
  {
    var init := cs[..|cs| - 1];
    forall p, q | 0 <= p < q < |init| ensures Before(init[p], init[q]) {
      assert init[p] == cs[p] && init[q] == cs[q];
    }
    if init != [] {
      assert init[|init| - 1] == cs[|cs| - 2];
    }
    assert NextOk(init, cs[|cs| - 1], m, r);
  }

  /** Adding the nodes of the 1s `cs`, in row-major order, to the arena holding
      the empty columns builds the matrix of those 1s. */
  lemma {:induction false} EntriesBuilt(g: Arena, m: nat, r: nat, cs: seq<Cell>)
    requires Assembled(g, m, r, []) && CellsOk(cs, m, r) && r < MaxInt && 1 + m + |cs| <= |g.L|
    ensures Assembled(Entries(g, m, cs), m, r, cs)
    decreases |cs|
  {
    if cs != [] {
      var init := cs[..|cs| - 1];
      var c := cs[|cs| - 1];
      assert cs == init + [c];
      var gi := Entries(g, m, init);
      var h, x, pv := c.j + 1, 1 + m + |init|, Prev(m, init, c);
      EntriesSnoc(g, m, init, c, h, x, pv);
      InitOk(cs, m, r);
      EntriesBuilt(g, m, r, init);
      EntriesSized(g, m, init);
      BuiltStep(gi, m, r, init, c, h, x, pv);
    }
  }

  /** In `makeDLXBoard`'s arena, the next cell `(i, j)` of the grid finds the
      links one iteration of the inner loop follows, for its header `h`, its
      node `x` and the node `pv` it is linked after. */
  lemma NextEntry(g0: Arena, M: seq<seq<int>>, i: int, j: int, h: int, x: int, pv: int)
    requires 0 < |M| < MaxInt && Rect(M, |M[0]|) && 0 <= i < |M| && 0 <= j < |M[0]| && h == j + 1
    requires Sized(g0) && |g0.L| == 1 + |M[0]| + |M| * |M[0]|
    requires var cs := Ones(M, |M[0]|, i) + RowOnes(M[i], i, j);
      x == 1 + |M[0]| + |cs| && pv == Prev(|M[0]|, cs, Cell(i, j))
    ensures var m := |M[0]|;
      Linkable(Entries(HeaderRow(g0, m), m, Ones(M, m, i) + RowOnes(M[i], i, j)), h, x, pv)
  {
    var m := |M[0]|;
    var r := |M|;
    var before := Ones(M, m, i);
    var cs := before + RowOnes(M[i], i, j);
    var H := HeaderRow(g0, m);
    HeaderRowBuilt(g0, m, r);
    OnesOk(M, m, i);
    OnesIn(M, m, i);
    RowOnesIn(M[i], i, j);
    RowOnesSorted(M[i], i, j);
    AppendRow(before, RowOnes(M[i], i, j), m, r, i);
    NextInRow(before, M[i], i, j, m, r);
    EntriesBuilt(H, m, r, cs);
    EntriesSized(H, m, cs);
    BuiltLinks(Entries(H, m, cs), m, r, cs, Cell(i, j), h, x, pv);
  }

  /** The inner loop of `makeDLXBoard` on the next 1, `(i, j)`, after the 1s
      `done`, in column header `h`: `prev`, the previous node of the row or else
      the new node `x`, is where `AddNode` links it, and adding it extends the
      list of 1s. */
  lemma NextCellStep(g0: Arena, M: seq<seq<int>>, i: int, j: int, h: int, done: seq<Cell>, x: int, prev0: int, prev: int)
    requires 0 < |M| < MaxInt && Rect(M, |M[0]|) && 0 <= i < |M| && 0 <= j < |M[0]| && h == j + 1
    requires Sized(g0) && |g0.L| == 1 + |M[0]| + |M| * |M[0]|
    requires done == Ones(M, |M[0]|, i) + RowOnes(M[i], i, j) && x == 1 + |M[0]| + |done|
    requires prev0 == if RowOnes(M[i], i, j) == [] then -1 else x - 1
    requires prev == if prev0 == -1 then x else prev0
    ensures var H := HeaderRow(g0, |M[0]|);
      && Linkable(Entries(H, |M[0]|, done), h, x, prev)
      && Entries(H, |M[0]|, done + [Cell(i, j)]) == AddNode(Entries(H, |M[0]|, done), h, x, prev)
  {
    var m := |M[0]|;
    var c := Cell(i, j);
    OnesIn(M, m, i);
    NextInRow(Ones(M, m, i), M[i], i, j, m, |M|);
    assert prev == Prev(m, done, c);
    EntriesSnoc(HeaderRow(g0, m), m, done, c, h, x, prev);
    NextEntry(g0, M, i, j, h, x, prev);
  }

  /** `makeDLXBoard(grid)` builds the matrix of the grid's 1s, its root counting the columns. */
  lemma DLXBoardBuilt(g0: Arena, grid: seq<seq<int>>)
    requires 0 < |grid| < MaxInt && Rect(grid, |grid[0]|)
    requires Sized(g0) && |g0.L| == 1 + |grid[0]| + |grid| * |grid[0]|
    ensures Built(DLXBoard(g0, grid), |grid[0]|, |grid|, Ones(grid, |grid[0]|, |grid|))
    ensures DLXBoard(g0, grid).size[0] == |grid[0]|
  {
    var m := |grid[0]|;
    var r := |grid|;
    var cs := Ones(grid, m, r);
    HeaderRowBuilt(g0, m, r);
    OnesOk(grid, m, r);
    OnesIn(grid, m, r);
    EntriesBuilt(HeaderRow(g0, m), m, r, cs);
    EntriesSized(HeaderRow(g0, m), m, cs);
    RootSize(Entries(HeaderRow(g0, m), m, cs), m, r, cs, m);
  }
}
