/** The row rings `makeDLXBoard` builds, read through their column names: the
    ring of grid row `i` lists the columns of the 1s of that row, left to right. */
module GridRows {
  import opened Rings
  import opened Matrix
  import opened SearchState
  import opened Grid
  import opened BoardFacts
  import opened Handler
  import opened Algorithm

  /** `p` is strictly increasing. */
  ghost predicate Increasing(p: seq<int>)
  {
    forall a, b | 0 <= a < b < |p| :: p[a] < p[b]
  }

  /** Entry `k` of `p` is a member of `p`. */
  lemma Member(p: seq<int>, k: int)
    requires 0 <= k < |p|
    ensures p[k] in p
  {
  }

  /** Two increasing sequences with the same members are equal. */
  lemma {:induction false} SortedEqual(p: seq<int>, q: seq<int>)
    requires Increasing(p) && Increasing(q) && forall z :: z in p <==> z in q
    ensures p == q
    decreases |p|
  {
    if p == [] {
      if q != [] {
        Member(q, 0);
        assert false;
      }
    } else if q == [] {
      Member(p, 0);
      assert false;
    } else {
      Member(p, 0);
      Member(q, 0);
      var i :| 0 <= i < |q| && q[i] == p[0];
      var j :| 0 <= j < |p| && p[j] == q[0];
      assert p[0] == q[0];
      TailsAgree(p, q);
      SortedEqual(p[1..], q[1..]);
      assert p == [p[0]] + p[1..] && q == [q[0]] + q[1..];
    }
  }

  /** Two increasing sequences with the same members and the same head have
      tails with the same members. */
  lemma TailsAgree(p: seq<int>, q: seq<int>)
    requires Increasing(p) && Increasing(q) && forall z :: z in p <==> z in q
    requires p != [] && q != [] && p[0] == q[0]
    ensures forall z :: z in p[1..] <==> z in q[1..]
  {
    forall z ensures z in p[1..] <==> z in q[1..] {
      if z in p[1..] {
        var t :| 1 <= t < |p| && p[t] == z;
        assert z in q && z != q[0];
      }
      if z in q[1..] {
        var t :| 1 <= t < |q| && q[t] == z;
        assert z in p && z != p[0];
      }
    }
  }

  /** The nodes of a grid row are numbered in increasing order. */
  lemma {:induction false} RowNodesIncrease(cs: seq<Cell>, base: int, i: int)
    ensures Increasing(RowNodes(cs, base, i))
    decreases |cs|
  {
    if cs != [] {
      var init := cs[..|cs| - 1];
      RowNodesIncrease(init, base, i);
      var r := RowNodes(init, base, i);
      forall y | y in r ensures y < base + |cs| - 1 {
        RowNodesHas(init, base, i, y);
      }
      var r' := RowNodes(cs, base, i);
      assert r' == r + (if cs[|cs| - 1].i == i then [base + |cs| - 1] else []);
      forall a, b | 0 <= a < b < |r'| ensures r'[a] < r'[b] {
        if b >= |r| {
          assert r'[a] == r[a] && r[a] in r;
        }
      }
    }
  }

  /** A 1-entry of the matrix built from the cells `cs` carries the header of its cell's column. */
  lemma NodeColumn(g: Arena, m: nat, r: nat, cs: seq<Cell>, z: int)
    requires CellsOk(cs, m, r) && Sound(g, ShapeOf(m, r, cs)) && 1 + m <= z < 1 + m + |cs|
    ensures 0 <= cs[z - 1 - m].j < m && 0 <= z < |g.C| && g.C[z] == cs[z - 1 - m].j + 1
  {
    var sh := ShapeOf(m, r, cs);
    var j := cs[z - 1 - m].j;
    ColumnNodesHas(cs, 1 + m, j, z);
    assert sh.cols[j] == ColumnNodes(cs, 1 + m, j);
    assert Valid(g, sh);
    assert ColumnOk(Col(g), g.C, g.size, sh.m, sh.n, sh.cols, j + 1);
  }

  /** Entry `t` of the ring of grid row `i`: its node holds a cell of row `i`,
      and its column name is that cell's column. */
  lemma RowEntry(g: Arena, m: nat, r: nat, cs: seq<Cell>, i: int, t: int)
    requires CellsOk(cs, m, r) && Sound(g, ShapeOf(m, r, cs)) && 0 <= i < r
    requires 0 <= t < |RowNodes(cs, 1 + m, i)|
    ensures var y := RowNodes(cs, 1 + m, i)[t];
      && 1 + m <= y < 1 + m + |cs| && cs[y - 1 - m].i == i
      && Names(g.C, RowNodes(cs, 1 + m, i))[t] == cs[y - 1 - m].j
  {
    var y := RowNodes(cs, 1 + m, i)[t];
    RowNodesHas(cs, 1 + m, i, y);
    NodeColumn(g, m, r, cs, y);
  }

  /** The ring of grid row `i` of the matrix of the cells `cs`: its column names
      increase from left to right, and they are the columns of the cells of row `i`. */
  lemma RowCells(g: Arena, m: nat, r: nat, cs: seq<Cell>, i: int)
    requires CellsOk(cs, m, r) && Sound(g, ShapeOf(m, r, cs)) && 0 <= i < r
    ensures var N := Names(g.C, RowNodes(cs, 1 + m, i));
      && Increasing(N)
      && forall h :: h in N <==> Cell(i, h) in cs
  {
    var ys := RowNodes(cs, 1 + m, i);
    var N := Names(g.C, ys);
    RowNodesIncrease(cs, 1 + m, i);
    forall a, b | 0 <= a < b < |N| ensures N[a] < N[b] {
      RowEntry(g, m, r, cs, i, a);
      RowEntry(g, m, r, cs, i, b);
      assert Before(cs[ys[a] - 1 - m], cs[ys[b] - 1 - m]);
    }
    forall h ensures h in N <==> Cell(i, h) in cs {
      if h in N {
        var t :| 0 <= t < |N| && N[t] == h;
        RowEntry(g, m, r, cs, i, t);
        assert cs[ys[t] - 1 - m] == Cell(i, h);
      }
      if Cell(i, h) in cs {
        var k :| 0 <= k < |cs| && cs[k] == Cell(i, h);
        RowNodesHas(cs, 1 + m, i, 1 + m + k);
        var t :| 0 <= t < |ys| && ys[t] == 1 + m + k;
        RowEntry(g, m, r, cs, i, t);
      }
    }
  }

  /** The ring of grid row `i` of the matrix `makeDLXBoard` builds from the grid
      `M`: its column names increase from left to right, and they are the
      columns where row `i` holds a 1. */
  lemma RowColumnNames(g: Arena, M: seq<seq<int>>, m: nat, i: int)
    requires Rect(M, m) && 0 <= i < |M| && Sound(g, ShapeOf(m, |M|, Ones(M, m, |M|)))
    ensures var N := Names(g.C, ShapeOf(m, |M|, Ones(M, m, |M|)).rows[i]);
      && Increasing(N)
      && forall h :: h in N <==> 0 <= h < m && M[i][h] == 1
  {
    var cs := Ones(M, m, |M|);
    OnesOk(M, m, |M|);
    OnesExact(M, m, |M|);
    assert ShapeOf(m, |M|, cs).rows[i] == RowNodes(cs, 1 + m, i);
    RowCells(g, m, |M|, cs, i);
  }

  /** The columns of the row of entry `y` are the names `K`, each plus one. */
  ghost predicate ColumnsAre(sh: Shape, C: seq<int>, y: int, K: seq<int>)
  {
    forall c :: c in RowColumns(sh, C, y) <==> c - 1 in K
  }

  /** The columns of the row of entry `y` are the names along its row ring, each plus one. */
  lemma RowColumnsNames(sh: Shape, C: seq<int>, y: int, K: seq<int>)
    requires InRow(sh, y) && forall z | z in sh.rows[sh.rowOf[y]] :: 0 <= z < |C|
    requires Names(C, sh.rows[sh.rowOf[y]]) == K
    ensures ColumnsAre(sh, C, y, K)
  {
    var ys := sh.rows[sh.rowOf[y]];
    var N := Names(C, ys);
    forall c ensures c in RowColumns(sh, C, y) <==> c - 1 in N {
      if c in RowColumns(sh, C, y) {
        var z :| z in ys && 0 <= z < |C| && C[z] == c;
        var t :| 0 <= t < |ys| && ys[t] == z;
        assert N[t] == c - 1;
      }
      if c - 1 in N {
        var t :| 0 <= t < |N| && N[t] == c - 1;
        assert ys[t] in ys;
      }
    }
  }

  /** Read from entry `y`, a row ring whose names `K` increase gives `parseBoard`
      the cell named by `K[0]` and the value named by `K[1]`. */
  lemma RotatedRead(C: seq<int>, sh: Shape, y: int, K: seq<int>, size: int)
    requires InRow(sh, y) && Names(C, sh.rows[sh.rowOf[y]]) == K && Increasing(K) && |K| >= 2 && size > 0
    ensures ReadRow(Names(C, RowFrom(sh, y)), size) == Placement(K[0] / size, K[0] % size, K[1] % size + 1)
  {
    var ys := sh.rows[sh.rowOf[y]];
    var p := IndexOf(ys, y);
    assert RowFrom(sh, y) == ys[p..] + ys[..p];
    NamesRotate(C, ys, p);
    RotationRead(K, p);
  }

  /** The names of a rotated row are the rotated names. */
  lemma NamesRotate(C: seq<int>, s: seq<int>, p: int)
    requires 0 <= p <= |s|
    ensures Names(C, s[p..] + s[..p]) == Names(C, s)[p..] + Names(C, s)[..p]
  {
  }

  /** Read from any starting point, the ring of an increasing row has its first
      smallest entry at `K[0]`, and `K[1]` right of it. */
  lemma RotationRead(K: seq<int>, p: int)
    requires Increasing(K) && |K| >= 2 && 0 <= p < |K|
    ensures var rot := K[p..] + K[..p]; var q := ArgMinUpTo(rot, |rot|);
      |rot| == |K| && rot[q] == K[0] && rot[Next(q, |rot|)] == K[1]
  {
    var rot := K[p..] + K[..p];
    var n := |K|;
    RotateAt(K, p);
    var q := ArgMinUpTo(rot, n);
    var q0 := if p == 0 then 0 else n - p;
    assert rot[q0] == K[0];
    ArgMinIsFirstMin(rot, n);
    var kq := if q < n - p then q + p else q + p - n;
    assert rot[q] == K[kq];
    assert K[kq] <= K[0];
    assert kq == 0;
    assert q == q0;
  }

  /** The row of an entry of a sound matrix lies among the 1-entries, inside the arena. */
  lemma RowInArena(g: Arena, sh: Shape, y: int)
    requires Sound(g, sh) && InRow(sh, y)
    ensures sh.m < y < sh.n && forall z | z in sh.rows[sh.rowOf[y]] :: sh.m < z < sh.n && 0 <= z < |g.C|
  {
    assert Valid(g, sh);
    assert RowOk(Row(g), g.C, sh, sh.rowOf[y]);
  }
}
