/** What `ColumnNode.cover` and `uncover` do to the matrix, proved on the
    functions of module Matrix. */
module CoverFacts {
  import opened Rings
  import opened Matrix

  /** `c` is an active column of the well-formed matrix `sh` that `g` holds:
      what `cover` and `uncover` rely on. */
  ghost predicate Coverable(g: Arena, sh: Shape, c: int)
  {
    Valid(g, sh) && c in sh.active
  }

  // ---------------------------------------------------------------------------
  // Sequences of column rings
  // ---------------------------------------------------------------------------

  lemma DropMembers(s: seq<int>, j: int)
    requires Distinct(s)
    ensures forall x :: x in Drop(s, j) <==> x in s && x != j
    ensures |Drop(s, j)| == if j in s then |s| - 1 else |s|
    ensures Distinct(Drop(s, j))
  {
    if j in s {
      var k := IndexOf(s, j);
      var r := Without(s, k);
      forall x ensures x in r <==> x in s && x != j {
        if x in r {
          var t :| 0 <= t < |r| && r[t] == x;
          if t < k { assert s[t] == x && t != k; } else { assert s[t + 1] == x && t + 1 != k; }
        }
        if x in s && x != j {
          var t :| 0 <= t < |s| && s[t] == x;
          if t < k { assert r[t] == x; } else { assert t != k && r[t - 1] == x; }
        }
      }
      forall a, b | 0 <= a < b < |r| ensures r[a] != r[b] {
        var a0 := if a < k then a else a + 1;
        var b0 := if b < k then b else b + 1;
        assert r[a] == s[a0] && r[b] == s[b0];
      }
    }
  }

  /** Removing the entries `js` from the column rings takes exactly them out of
      column `h`, provided column `h` holds only its own entries. */
  lemma StripColumn(cols: seq<seq<int>>, C: seq<int>, m: int, n: int, js: seq<int>, h: int)
    requires 1 <= h <= |cols| && Distinct(cols[h - 1]) && Members(cols[h - 1], C, m, n, h)
    ensures Distinct(StripCols(cols, C, js)[h - 1]) && Members(StripCols(cols, C, js)[h - 1], C, m, n, h)
    ensures forall x :: x in StripCols(cols, C, js)[h - 1] <==> x in cols[h - 1] && x !in js
    decreases |js|
  {
    if js != [] {
      var init := js[..|js| - 1];
      var j := js[|js| - 1];
      StripColumn(cols, C, m, n, init, h);
      var prev := StripCols(cols, C, init);
      assert StripCols(cols, C, js) == RemoveNode(prev, C, j);
      if 0 <= j < |C| && C[j] == h {
        DropMembers(prev[h - 1], j);
        assert StripCols(cols, C, js)[h - 1] == Drop(prev[h - 1], j);
      } else {
        assert StripCols(cols, C, js)[h - 1] == prev[h - 1];
        assert j !in cols[h - 1];
      }
      var r := StripCols(cols, C, js)[h - 1];
      forall x | x in r ensures x in cols[h - 1] && x !in js {
        assert x in js ==> x in init || x == j;
      }
      forall x | x in cols[h - 1] && x !in js ensures x in r {
        assert x !in init && x != j;
      }
    } else {
      assert StripCols(cols, C, js) == cols;
    }
  }

  /** A column none of whose entries is in `js` is left as it was. */
  lemma StripUntouched(cols: seq<seq<int>>, C: seq<int>, js: seq<int>, h: int)
    requires 1 <= h <= |cols|
    requires forall j | j in js && 0 <= j < |C| :: C[j] != h
    ensures StripCols(cols, C, js)[h - 1] == cols[h - 1]
    decreases |js|
  {
    if js != [] {
      StripUntouched(cols, C, js[..|js| - 1], h);
      assert js[|js| - 1] in js;
    }
  }

  // ---------------------------------------------------------------------------
  // One entry
  // ---------------------------------------------------------------------------

  /** `CoverStep` is `unlinkUD` followed by the decrement of the column count. */
  lemma CoverStepIsUnlinkThenCount(g: Arena, j: int)
    requires CanStep(g, j)
    ensures CoverStep(g, j) == UnlinkUD(g, j).(size := UnlinkUD(g, j).size[g.C[j] := UnlinkUD(g, j).size[g.C[j]] - 1])
  {
  }

  /** `UncoverStep` is the increment of the column count followed by `relinkUD`. */
  lemma UncoverStepIsCountThenRelink(g: Arena, j: int)
    requires CanStep(g, j)
    ensures UncoverStep(g, j) == RelinkUD(g.(size := g.size[g.C[j] := g.size[g.C[j]] + 1]), j)
  {
  }

  /** `UncoverStep` undoes `CoverStep` for an entry that is linked in its column. */
  lemma UncoverStepUndoesCoverStep(g: Arena, j: int)
    requires CanStep(g, j) && Linked(Col(g), j)
    ensures CanStep(CoverStep(g, j), j)
    ensures UncoverStep(CoverStep(g, j), j) == g
  {
    RelinkUndoesUnlink(Col(g), j);
    var g1 := CoverStep(g, j);
    assert CanStep(g1, j);
    var g2 := g1.(size := g1.size[g.C[j] := g1.size[g.C[j]] + 1]);
    assert g2.size == g.size;
    assert Col(g2) == Unlink(Col(g), j);
    assert RelinkUD(g2, j) == WithCol(g2, Col(g));
  }

  /** A column stays well formed when the links of its members and its count are kept. */
  lemma ColumnFrame(col: Chain, col': Chain, C: seq<int>, size: seq<int>, size': seq<int>,
                    m: int, n: int, cols: seq<seq<int>>, h: int)
    requires 1 <= h <= |cols| && ColumnOk(col, C, size, m, n, cols, h)
    requires forall x | x in [h] + cols[h - 1] ::
      Has(col', x) && col'.next[x] == col.next[x] && col'.prev[x] == col.prev[x]
    requires h < |size'| && size'[h] == size[h]
    ensures ColumnOk(col', C, size', m, n, cols, h)
  {
    RingFrame(col, col', [h] + cols[h - 1]);
    assert forall x | x in cols[h - 1] :: 0 <= m < x < n && x < |C| && C[x] == h;
  }

  /** Unlinking an entry of a column ring leaves the ring without it. */
  lemma UnlinkFromColumn(ch: Chain, h: int, cs: seq<int>, j: int)
    requires Ring(ch, [h] + cs) && j in cs
    ensures Has(ch, j) && Has(ch, ch.next[j]) && Has(ch, ch.prev[j])
    ensures Linked(ch, j)
    ensures Ring(Unlink(ch, j), [h] + Drop(cs, j))
    ensures Distinct(cs) && h !in cs
    ensures forall x :: x in Drop(cs, j) <==> x in cs && x != j
    ensures |Drop(cs, j)| == |cs| - 1
    ensures forall y | Has(ch, y) && y != h && y !in cs ::
      Unlink(ch, j).next[y] == ch.next[y] && Unlink(ch, j).prev[y] == ch.prev[y]
  {
    var s := [h] + cs;
    DistinctTail(h, cs);
    var k := IndexOf(cs, j);
    assert s[k + 1] == j;
    UnlinkRemoves(ch, s, k + 1);
    WithoutHead(h, cs, k);
    DropMembers(cs, j);
  }

  lemma WithoutHead(h: int, cs: seq<int>, k: int)
    requires 0 <= k < |cs|
    ensures Without([h] + cs, k + 1) == [h] + Without(cs, k)
  {
    var a := Without([h] + cs, k + 1);
    var b := [h] + Without(cs, k);
    assert |a| == |b|;
    forall t | 0 <= t < |a| ensures a[t] == b[t] {
      if t == 0 {
      } else if t <= k {
        assert a[t] == ([h] + cs)[t] == cs[t - 1] == b[t];
      } else {
        assert a[t] == ([h] + cs)[t + 1] == cs[t] == b[t];
      }
    }
  }

  /** `j.unlinkUD(); j.C.size--` takes `j` out of its own column's ring and count,
      and keeps the column links of every node outside that column. */
  lemma CoverStepOwnColumn(g: Arena, m: int, n: int, cols: seq<seq<int>>, j: int)
    requires Sized(g) && 0 <= j < |g.C| && 1 <= g.C[j] <= m == |cols| && |g.C| == |g.size|
    requires ColumnOk(Col(g), g.C, g.size, m, n, cols, g.C[j]) && j in cols[g.C[j] - 1]
    ensures CanStep(g, j) && Linked(Col(g), j)
    ensures ColumnOk(Col(CoverStep(g, j)), g.C, CoverStep(g, j).size, m, n, RemoveNode(cols, g.C, j), g.C[j])
    ensures forall y | Has(Col(g), y) && y != g.C[j] && y !in cols[g.C[j] - 1] ::
      CoverStep(g, j).D[y] == g.D[y] && CoverStep(g, j).U[y] == g.U[y]
    ensures forall y | 0 <= y < |g.size| && y != g.C[j] :: CoverStep(g, j).size[y] == g.size[y]
  {
    var h := g.C[j];
    var cs := cols[h - 1];
    UnlinkFromColumn(Col(g), h, cs, j);
    var g' := CoverStep(g, j);
    assert Col(g') == Unlink(Col(g), j);
    var cols' := RemoveNode(cols, g.C, j);
    assert cols'[h - 1] == Drop(cs, j);
    assert g'.size[h] == |cols'[h - 1]|;
    assert Members(cols'[h - 1], g.C, m, n, h);
  }

  /** `j.unlinkUD(); j.C.size--` on an entry of column `C[j]` removes it from that
      column's ring and count and leaves every other column as it was. */
  ghost predicate StepReady(g: Arena, C: seq<int>, m: int, n: int, cols: seq<seq<int>>, j: int)
  {
    Sized(g) && g.C == C && Columns(Col(g), C, g.size, m, n, cols)
    && m < j < n && 1 <= C[j] <= m && j in cols[C[j] - 1]
  }

  lemma CoverStepColumns(g: Arena, C: seq<int>, m: int, n: int, cols: seq<seq<int>>, j: int)
    requires StepReady(g, C, m, n, cols, j)
    ensures CanStep(g, j) && Linked(Col(g), j)
    ensures Sized(CoverStep(g, j)) && CoverStep(g, j).C == g.C
    ensures CoverStep(g, j).L == g.L && CoverStep(g, j).R == g.R
    ensures Columns(Col(CoverStep(g, j)), C, CoverStep(g, j).size, m, n, RemoveNode(cols, C, j))
  {
    var h := C[j];
    assert ColumnOk(Col(g), C, g.size, m, n, cols, h);
    CoverStepOwnColumn(g, m, n, cols, j);
    var g' := CoverStep(g, j);
    var cols' := RemoveNode(cols, C, j);
    forall h' | 1 <= h' <= m && h' != h ensures ColumnOk(Col(g'), C, g'.size, m, n, cols', h') {
      assert ColumnOk(Col(g), C, g.size, m, n, cols, h');
      assert cols'[h' - 1] == cols[h' - 1];
      forall x | x in [h'] + cols[h' - 1]
        ensures Has(Col(g'), x) && Col(g').next[x] == Col(g).next[x] && Col(g').prev[x] == Col(g).prev[x]
      {
        if x != h' { assert x in cols[h' - 1] && C[x] == h'; }
        var t := IndexOf([h'] + cols[h' - 1], x);
        assert Has(Col(g), ([h'] + cols[h' - 1])[t]);
      }
      ColumnFrame(Col(g), Col(g'), C, g.size, g'.size, m, n, cols, h');
    }
  }

  // ---------------------------------------------------------------------------
  // A sequence of entries
  // ---------------------------------------------------------------------------

  /** Taking distinct entries, each still in its column, out of their columns one
      after the other leaves the column rings `StripCols` describes. */
  lemma CoverStepsColumns(g: Arena, m: int, n: int, cols: seq<seq<int>>, js: seq<int>)
    requires Sized(g) && Columns(Col(g), g.C, g.size, m, n, cols)
    requires Distinct(js)
    requires forall j | j in js :: m < j < n && 1 <= g.C[j] <= m && j in cols[g.C[j] - 1]
    ensures Columns(Col(CoverSteps(g, js)), g.C, CoverSteps(g, js).size, m, n, StripCols(cols, g.C, js))
    decreases |js|
  {
    if js != [] {
      var init := js[..|js| - 1];
      var j := js[|js| - 1];
      DistinctInit(js);
      assert forall x | x in init :: x in js;
      CoverStepsColumns(g, m, n, cols, init);
      assert j in js;
      StillInColumn(g, m, n, cols, init, j);
      CoverStepColumns(CoverSteps(g, init), g.C, m, n, StripCols(cols, g.C, init), j);
      assert CoverSteps(g, js) == CoverStep(CoverSteps(g, init), j);
      assert StripCols(cols, g.C, js) == RemoveNode(StripCols(cols, g.C, init), g.C, j);
    }
  }

  /** An entry not among `js` is still in its column once they have been removed. */
  lemma StillInColumn(g: Arena, m: int, n: int, cols: seq<seq<int>>, js: seq<int>, j: int)
    requires Columns(Col(g), g.C, g.size, m, n, cols)
    requires m < j < n && 1 <= g.C[j] <= m && j in cols[g.C[j] - 1] && j !in js
    ensures j in StripCols(cols, g.C, js)[g.C[j] - 1]
  {
    var h := g.C[j];
    assert ColumnOk(Col(g), g.C, g.size, m, n, cols, h);
    DistinctTail(h, cols[h - 1]);
    StripColumn(cols, g.C, m, n, js, h);
  }

  /** The entry `js[p]` can be unlinked from its column after `js[..p]` have been. */
  lemma CoverStepsNext(g: Arena, m: int, n: int, cols: seq<seq<int>>, js: seq<int>, p: int)
    requires Sized(g) && Columns(Col(g), g.C, g.size, m, n, cols)
    requires Distinct(js) && 0 <= p < |js|
    requires forall j | j in js :: m < j < n && 1 <= g.C[j] <= m && j in cols[g.C[j] - 1]
    ensures CanStep(CoverSteps(g, js[..p]), js[p]) && Linked(Col(CoverSteps(g, js[..p])), js[p])
  {
    var pre := js[..p];
    DistinctPrefix(js, p);
    assert forall x | x in pre :: x in js;
    CoverStepsColumns(g, m, n, cols, pre);
    var j := js[p];
    assert j in js && j !in pre;
    StillInColumn(g, m, n, cols, pre, j);
    CoverStepColumns(CoverSteps(g, pre), g.C, m, n, StripCols(cols, g.C, pre), j);
  }

  lemma CoverStepsSnoc(g: Arena, js: seq<int>, p: int)
    requires 0 <= p < |js|
    ensures CoverSteps(g, js[..p + 1]) == CoverStep(CoverSteps(g, js[..p]), js[p])
  {
    assert js[..p + 1][..p] == js[..p];
  }

  // ---------------------------------------------------------------------------
  // The entries cover visits
  // ---------------------------------------------------------------------------

  /** Two entries of one row lie in different columns. */
  lemma SameRowSameColumn(g: Arena, sh: Shape, a: int, b: int)
    requires Valid(g, sh) && InRow(sh, a) && InRow(sh, b) && sh.rowOf[a] == sh.rowOf[b]
    requires 0 <= a < |g.C| && 0 <= b < |g.C| && g.C[a] == g.C[b]
    ensures a == b
  {
    var k := sh.rowOf[a];
    var s := sh.rows[k];
    assert RowOk(Row(g), g.C, sh, k);
    var ia := IndexOf(s, a);
    var ib := IndexOf(s, b);
  }

  /** The members of a row: 1-entries of that row, each in a matrix column. */
  lemma RowMembers(g: Arena, sh: Shape, x: int, z: int)
    requires Rows(g, sh) && InRow(sh, x) && z in sh.rows[sh.rowOf[x]]
    ensures sh.m < z < sh.n && InRow(sh, z) && sh.rowOf[z] == sh.rowOf[x] && 1 <= g.C[z] <= sh.m
  {
    assert RowOk(Row(g), g.C, sh, sh.rowOf[x]);
  }

  /** The row ring of a 1-entry, read from that entry. */
  lemma RowFromFacts(ch: Chain, sh: Shape, x: int)
    requires InRow(sh, x) && Ring(ch, sh.rows[sh.rowOf[x]])
    ensures RowFrom(sh, x) == [x] + Others(sh, x)
    ensures Ring(ch, RowFrom(sh, x))
    ensures Distinct(Others(sh, x)) && x !in Others(sh, x)
    ensures forall z :: z in Others(sh, x) <==> z in sh.rows[sh.rowOf[x]] && z != x
  {
    var s := sh.rows[sh.rowOf[x]];
    var p := IndexOf(s, x);
    RotateRing(ch, s, p);
    RotateMembers(s, p);
    var r := RowFrom(sh, x);
    assert r == s[p..] + s[..p];
    assert r == [x] + Others(sh, x);
    DistinctTail(x, Others(sh, x));
  }

  /** `for (j = x.R; j != x; j = j.R)` walks the rest of `x`'s row exactly once. */
  lemma OthersFacts(g: Arena, sh: Shape, x: int)
    requires Valid(g, sh) && sh.m < x < sh.n
    ensures InRow(sh, x)
    ensures Ring(Row(g), RowFrom(sh, x))
    ensures Distinct(Others(sh, x)) && x !in Others(sh, x)
    ensures forall z :: z in Others(sh, x) <==> z in sh.rows[sh.rowOf[x]] && z != x
  {
    assert Rows(g, sh) && InRow(sh, x);
    var s := sh.rows[sh.rowOf[x]];
    assert RowOk(Row(g), g.C, sh, sh.rowOf[x]);
    assert x in s;
    RowFromFacts(Row(g), sh, x);
  }

  /** The other entries of the row of an entry of active column `c` lie in
      active columns other than `c`, and are still in those columns. */
  lemma OthersInColumns(g: Arena, sh: Shape, c: int, i: int)
    requires Valid(g, sh) && c in sh.active && 1 <= c <= |sh.cols| && i in sh.cols[c - 1]
    ensures InRow(sh, i) && 0 <= i < |g.C| && g.C[i] == c
    ensures Distinct(Others(sh, i)) && i !in Others(sh, i)
    ensures forall z :: z in Others(sh, i) <==> z in sh.rows[sh.rowOf[i]] && z != i
    ensures forall z | z in Others(sh, i) :: OtherEntry(g, sh, c, z) && sh.rowOf[z] == sh.rowOf[i]
  {
    assert ColumnOk(Col(g), g.C, g.size, sh.m, sh.n, sh.cols, c);
    assert Members(sh.cols[c - 1], g.C, sh.m, sh.n, c);
    OthersFacts(g, sh, i);
    forall z | z in Others(sh, i) ensures OtherEntry(g, sh, c, z) && sh.rowOf[z] == sh.rowOf[i] {
      RowMembers(g, sh, i, z);
      if g.C[z] == c { SameRowSameColumn(g, sh, i, z); }
    }
  }

  /** What holds of every entry that covering column `c` unlinks. */
  ghost predicate OtherEntry(g: Arena, sh: Shape, c: int, z: int)
  {
    && sh.m < z < sh.n && InRow(sh, z) && 0 <= z < |g.C| && 1 <= g.C[z] <= |sh.cols| == sh.m && g.C[z] != c
    && g.C[z] in sh.active && z in sh.cols[g.C[z] - 1]
  }

  /** Every entry of `Flat(sh, xs)`, for entries `xs` of column `c`, shares a row with one of `xs`. */
  lemma FlatMembers(g: Arena, sh: Shape, c: int, xs: seq<int>)
    requires Valid(g, sh) && c in sh.active
    requires forall i | i in xs :: 1 <= c <= |sh.cols| && i in sh.cols[c - 1]
    ensures forall z | z in Flat(sh, xs) ::
      OtherEntry(g, sh, c, z) && exists i | i in xs && 0 <= i < |sh.rowOf| :: sh.rowOf[i] == sh.rowOf[z]
    decreases |xs|
  {
    if xs != [] {
      var init := xs[..|xs| - 1];
      var i := xs[|xs| - 1];
      assert forall i' | i' in init :: i' in xs;
      FlatMembers(g, sh, c, init);
      assert i in xs;
      OthersInColumns(g, sh, c, i);
    }
  }

  /** `Flat(sh, xs)` holds every other entry of the rows of `xs`. */
  lemma FlatCovers(g: Arena, sh: Shape, c: int, xs: seq<int>)
    requires Valid(g, sh) && c in sh.active
    requires forall i | i in xs :: 1 <= c <= |sh.cols| && i in sh.cols[c - 1]
    ensures forall i, z | i in xs && InRow(sh, i) && z in sh.rows[sh.rowOf[i]] && z != i :: z in Flat(sh, xs)
    decreases |xs|
  {
    if xs != [] {
      var init := xs[..|xs| - 1];
      var i := xs[|xs| - 1];
      assert forall i' | i' in init :: i' in xs;
      FlatCovers(g, sh, c, init);
      assert i in xs;
      OthersInColumns(g, sh, c, i);
      assert xs == init + [i];
      FlatCoversStep(sh, xs, init, i);
    }
  }

  /** The induction step of `FlatCovers`, once the row of the last entry `i` is known. */
  lemma FlatCoversStep(sh: Shape, xs: seq<int>, init: seq<int>, i: int)
    requires xs == init + [i] && InRow(sh, i)
    requires forall i', z | i' in init && InRow(sh, i') && z in sh.rows[sh.rowOf[i']] && z != i' ::
      z in Flat(sh, init)
    requires forall z :: z in Others(sh, i) <==> z in sh.rows[sh.rowOf[i]] && z != i
    ensures forall i', z | i' in xs && InRow(sh, i') && z in sh.rows[sh.rowOf[i']] && z != i' ::
      z in Flat(sh, xs)
  {
    assert xs[..|xs| - 1] == init;
    assert Flat(sh, xs) == Flat(sh, init) + Others(sh, i);
    forall i', z | i' in xs && InRow(sh, i') && z in sh.rows[sh.rowOf[i']] && z != i'
      ensures z in Flat(sh, xs)
    {
      if i' != i {
        assert i' in init;
      }
    }
  }

  /** `Flat(sh, xs)` lists no entry twice when `xs` are distinct entries of column `c`. */
  lemma FlatDistinct(g: Arena, sh: Shape, c: int, xs: seq<int>)
    requires Valid(g, sh) && c in sh.active && Distinct(xs)
    requires forall i | i in xs :: 1 <= c <= |sh.cols| && i in sh.cols[c - 1]
    ensures Distinct(Flat(sh, xs))
    decreases |xs|
  {
    if xs != [] {
      var init := xs[..|xs| - 1];
      var i := xs[|xs| - 1];
      DistinctInit(xs);
      assert forall i' | i' in init :: i' in xs;
      FlatDistinct(g, sh, c, init);
      FlatMembers(g, sh, c, init);
      assert i in xs;
      OthersInColumns(g, sh, c, i);
      var o := Others(sh, i);
      forall z | z in Flat(sh, init) ensures z !in o {
        var i' :| i' in init && 0 <= i' < |sh.rowOf| && sh.rowOf[i'] == sh.rowOf[z];
        if z in o {
          OthersInColumns(g, sh, c, i');
          SameRowSameColumn(g, sh, i, i');
        }
      }
      DistinctConcat(Flat(sh, init), o);
    }
  }

  // ---------------------------------------------------------------------------
  // cover keeps the matrix well formed
  // ---------------------------------------------------------------------------

  /** `cover(c)` unlinks each entry of the rows crossing column `c` once, each
      from an active column other than `c` that still holds it. */
  lemma CoverListBasics(g: Arena, sh: Shape, c: int)
    requires Valid(g, sh) && c in sh.active
    ensures 1 <= c <= sh.m && Distinct(sh.cols[c - 1]) && Members(sh.cols[c - 1], g.C, sh.m, sh.n, c)
    ensures Distinct(CoverList(sh, c))
    ensures forall j | j in CoverList(sh, c) ::
      sh.m < j < sh.n && 1 <= g.C[j] <= sh.m && g.C[j] != c && j in sh.cols[g.C[j] - 1]
  {
    assert ColumnOk(Col(g), g.C, g.size, sh.m, sh.n, sh.cols, c);
    DistinctTail(c, sh.cols[c - 1]);
    FlatDistinct(g, sh, c, sh.cols[c - 1]);
    FlatMembers(g, sh, c, sh.cols[c - 1]);
  }

  /** The entries `cover(c)` unlinks are exactly the other entries of the rows crossing `c`. */
  lemma CoverListFacts(g: Arena, sh: Shape, c: int)
    requires Valid(g, sh) && c in sh.active
    ensures 1 <= c <= sh.m && Members(sh.cols[c - 1], g.C, sh.m, sh.n, c)
    ensures forall z | z in CoverList(sh, c) ::
      OtherEntry(g, sh, c, z) && exists i | i in sh.cols[c - 1] && 0 <= i < |sh.rowOf| :: sh.rowOf[i] == sh.rowOf[z]
    ensures forall i, z | i in sh.cols[c - 1] && InRow(sh, i) && z in sh.rows[sh.rowOf[i]] && z != i ::
      z in CoverList(sh, c)
  {
    assert ColumnOk(Col(g), g.C, g.size, sh.m, sh.n, sh.cols, c);
    FlatMembers(g, sh, c, sh.cols[c - 1]);
    FlatCovers(g, sh, c, sh.cols[c - 1]);
  }

  /** After `cover(c)` the column rings are those of `CoverShape`, and column `c`
      itself is untouched. */
  lemma CoverKeepsColumns(g: Arena, sh: Shape, c: int)
    requires Valid(g, sh) && c in sh.active
    ensures Sized(CoverResult(g, sh, c))
    ensures Columns(Col(CoverResult(g, sh, c)), g.C, CoverResult(g, sh, c).size, sh.m, sh.n, CoverShape(sh, g.C, c).cols)
    ensures CoverShape(sh, g.C, c).cols[c - 1] == sh.cols[c - 1]
  {
    CoverStart(g, sh, c);
    var g1 := UnlinkLR(g, c);
    var js := CoverList(sh, c);
    CoverStepsColumns(g1, sh.m, sh.n, sh.cols, js);
    StripUntouched(sh.cols, g.C, js, c);
  }

  /** A row ring whose members keep their links stays a well-formed row. */
  lemma RowFrame(row: Chain, row': Chain, C: seq<int>, sh: Shape, sh': Shape, k: int)
    requires 0 <= k < |sh.rows| && RowOk(row, C, sh, k)
    requires sh'.rows == sh.rows && sh'.rowOf == sh.rowOf && sh'.m == sh.m && sh'.n == sh.n
    requires forall x | x in sh.rows[k] :: Has(row', x) && row'.next[x] == row.next[x] && row'.prev[x] == row.prev[x]
    ensures RowOk(row', C, sh', k)
  {
    if sh.rows[k] != [] {
      RingFrame(row, row', sh.rows[k]);
    }
  }

  /** The rows stay well formed when the row links of every 1-entry are kept. */
  lemma RowsFrame(g: Arena, g': Arena, sh: Shape, sh': Shape)
    requires Rows(g, sh) && Sized(g') && g'.C == g.C && |g'.L| == |g.L|
    requires sh'.rows == sh.rows && sh'.rowOf == sh.rowOf && sh'.m == sh.m && sh'.n == sh.n
    requires forall x | sh.m < x < sh.n :: g'.R[x] == g.R[x] && g'.L[x] == g.L[x]
    ensures Rows(g', sh')
  {
    forall k | 0 <= k < |sh.rows| ensures RowOk(Row(g'), g'.C, sh', k) {
      assert RowOk(Row(g), g.C, sh, k);
      forall x | x in sh.rows[k]
        ensures Has(Row(g'), x) && Row(g').next[x] == Row(g).next[x] && Row(g').prev[x] == Row(g).prev[x]
      {
        assert sh.m < x < sh.n;
      }
      RowFrame(Row(g), Row(g'), g.C, sh, sh', k);
    }
  }

  /** The row rings are unaffected by `cover(c)`. */
  lemma CoverKeepsRows(g: Arena, sh: Shape, c: int)
    requires Valid(g, sh) && c in sh.active
    ensures Rows(CoverResult(g, sh, c), CoverShape(sh, g.C, c))
  {
    ActiveHeader(g, sh, c);
    var g' := CoverResult(g, sh, c);
    assert Row(g') == Row(UnlinkLR(g, c)) && g'.C == g.C && Sized(g');
    forall x | sh.m < x < sh.n ensures g'.R[x] == g.R[x] && g'.L[x] == g.L[x] {
      assert x !in [0] + sh.active;
    }
    RowsFrame(g, g', sh, CoverShape(sh, g.C, c));
  }

  /** What `Live` needs to know of the entries `js` that `cover(c)` unlinks:
      they are exactly the other entries of the rows crossing column `c`. */
  ghost predicate CoverListOk(g: Arena, sh: Shape, c: int, js: seq<int>)
  {
    && 1 <= c <= |sh.cols| && Members(sh.cols[c - 1], g.C, sh.m, sh.n, c)
    && (forall z | z in js && 0 <= z < |sh.rowOf| :: exists i | i in sh.cols[c - 1] && 0 <= i < |sh.rowOf| :: sh.rowOf[i] == sh.rowOf[z])
    && (forall i, z | i in sh.cols[c - 1] && InRow(sh, i) && z in sh.rows[sh.rowOf[i]] && z != i :: z in js)
  }

  /** The column contents without their links: distinct entries of their own column. */
  ghost predicate ColumnSet(C: seq<int>, m: int, n: int, cols: seq<seq<int>>, h: int)
    requires 1 <= h <= |cols|
  {
    Distinct(cols[h - 1]) && Members(cols[h - 1], C, m, n, h)
  }

  ghost predicate ColumnSets(C: seq<int>, m: int, n: int, cols: seq<seq<int>>)
  {
    |cols| == m && forall h | 1 <= h <= m :: ColumnSet(C, m, n, cols, h)
  }

  /** The row contents without their links: every 1-entry lies in a recorded row of
      1-entries, and sits in a matrix column. */
  ghost predicate RowSets(C: seq<int>, sh: Shape)
  {
    && sh.n <= |C| && sh.n <= |sh.rowOf|
    && (forall x | sh.m < x < sh.n :: InRow(sh, x) && 1 <= C[x] <= sh.m)
    && (forall k, x | 0 <= k < |sh.rows| && x in sh.rows[k] :: sh.m < x < sh.n && x < |sh.rowOf| && sh.rowOf[x] == k)
  }

  lemma SetsOf(g: Arena, sh: Shape)
    requires Columns(Col(g), g.C, g.size, sh.m, sh.n, sh.cols) && Rows(g, sh)
    ensures ColumnSets(g.C, sh.m, sh.n, sh.cols) && RowSets(g.C, sh)
  {
    forall h | 1 <= h <= sh.m ensures ColumnSet(g.C, sh.m, sh.n, sh.cols, h) {
      assert ColumnOk(Col(g), g.C, g.size, sh.m, sh.n, sh.cols, h);
      DistinctTail(h, sh.cols[h - 1]);
    }
    forall k, x | 0 <= k < |sh.rows| && x in sh.rows[k] ensures sh.m < x < sh.n && x < |sh.rowOf| && sh.rowOf[x] == k {
      assert RowOk(Row(g), g.C, sh, k);
    }
    assert sh.n <= |g.C| && sh.n <= |sh.rowOf|;
    assert forall x | sh.m < x < sh.n :: InRow(sh, x) && 1 <= g.C[x] <= sh.m;
  }

  /** What the proof that `cover(c)` keeps rows whole starts from: the matrix
      before, and the entries `js` it unlinks. */
  ghost predicate LiveBefore(g: Arena, sh: Shape, c: int, js: seq<int>)
  {
    && ColumnSets(g.C, sh.m, sh.n, sh.cols) && RowSets(g.C, sh) && Live(g, sh)
    && CoverListOk(g, sh, c, js) && Distinct(sh.active)
  }

  /** The rings once column `c` and the entries `js` are gone. */
  ghost function Covered(sh: Shape, C: seq<int>, c: int, js: seq<int>): Shape
  {
    sh.(active := Drop(sh.active, c), cols := StripCols(sh.cols, C, js))
  }

  /** One instance of `Live` after `cover(c)`: an entry `x` still in active
      column `h` is in no row crossing `c`, so its row-mate `y` is still in its
      column, and that column is not `c`. */
  lemma CoverKeepsLiveAt(g: Arena, sh: Shape, c: int, js: seq<int>, g': Arena, h: int, x: int, y: int)
    requires LiveBefore(g, sh, c, js) && g'.C == g.C
    requires
      var sh' := Covered(sh, g.C, c, js);
      && h in sh'.active && 1 <= h <= |sh'.cols| && x in sh'.cols[h - 1] && InRow(sh', x)
      && y in sh'.rows[sh'.rowOf[x]] && 0 <= y < |g'.C| && 1 <= g'.C[y] <= |sh'.cols|
    ensures
      var sh' := Covered(sh, g.C, c, js);
      g'.C[y] in sh'.active && y in sh'.cols[g'.C[y] - 1]
  {
    DropMembers(sh.active, c);
    StripMembers(g, sh, js, h, x);
    assert x in sh.cols[h - 1] && x !in js && g.C[x] == h;
    var d := g.C[y];
    assert d in sh.active && y in sh.cols[d - 1];
    assert InRow(sh, y) && sh.rowOf[y] == sh.rowOf[x];
    assert d == c ==> x in js;
    RowMateInList(g, sh, c, js, y, x);
    StripMembers(g, sh, js, d, y);
  }

  /** Entry `x` is in column `h` after the entries `js` are removed exactly
      when it was there before and is not in `js`. */
  lemma StripMembers(g: Arena, sh: Shape, js: seq<int>, h: int, x: int)
    requires ColumnSets(g.C, sh.m, sh.n, sh.cols) && 1 <= h <= sh.m
    ensures Members(sh.cols[h - 1], g.C, sh.m, sh.n, h)
    ensures x in StripCols(sh.cols, g.C, js)[h - 1] <==> x in sh.cols[h - 1] && x !in js
  {
    assert ColumnSet(g.C, sh.m, sh.n, sh.cols, h);
    StripColumn(sh.cols, g.C, sh.m, sh.n, js, h);
  }

  /** A row that crosses column `c` is in `js` with all its entries outside `c`. */
  lemma RowMateInList(g: Arena, sh: Shape, c: int, js: seq<int>, y: int, x: int)
    requires RowSets(g.C, sh) && CoverListOk(g, sh, c, js)
    requires InRow(sh, x) && InRow(sh, y) && sh.rowOf[x] == sh.rowOf[y] && 0 <= x < |g.C| && g.C[x] != c
    ensures y in js ==> x in js
  {
    if y in js {
      var i :| i in sh.cols[c - 1] && 0 <= i < |sh.rowOf| && sh.rowOf[i] == sh.rowOf[y];
      assert sh.m < i < sh.n && g.C[i] == c;
      assert InRow(sh, i);
    }
  }

  /** Rows stay whole after `cover(c)`. */
  lemma CoverKeepsLive(g: Arena, sh: Shape, c: int)
    requires Valid(g, sh) && c in sh.active
    ensures Live(CoverResult(g, sh, c), CoverShape(sh, g.C, c))
  {
    assert Ring(Row(g), [0] + sh.active);
    DistinctTail(0, sh.active);
    CoverListFacts(g, sh, c);
    SetsOf(g, sh);
    assert LiveBefore(g, sh, c, CoverList(sh, c));
    LiveAfter(g, sh, c, CoverList(sh, c), CoverResult(g, sh, c));
    assert CoverShape(sh, g.C, c) == Covered(sh, g.C, c, CoverList(sh, c));
  }

  /** `Live` after removing column `c` and the entries `js` of the rows crossing it. */
  lemma LiveAfter(g: Arena, sh: Shape, c: int, js: seq<int>, g': Arena)
    requires LiveBefore(g, sh, c, js) && g'.C == g.C
    ensures Live(g', Covered(sh, g.C, c, js))
  {
    var sh' := Covered(sh, g.C, c, js);
    forall h, x, y |
      && h in sh'.active && 1 <= h <= |sh'.cols| && x in sh'.cols[h - 1] && InRow(sh', x)
      && y in sh'.rows[sh'.rowOf[x]] && 0 <= y < |g'.C| && 1 <= g'.C[y] <= |sh'.cols|
      ensures g'.C[y] in sh'.active && y in sh'.cols[g'.C[y] - 1]
    {
      CoverKeepsLiveAt(g, sh, c, js, g', h, x, y);
    }
  }

  /** `cover(c)` on a well-formed matrix leaves a well-formed matrix whose header
      ring has lost `c` and whose columns have lost the rows crossing `c`. */
  lemma CoverKeepsValid(g: Arena, sh: Shape, c: int)
    requires Valid(g, sh) && c in sh.active
    ensures Valid(CoverResult(g, sh, c), CoverShape(sh, g.C, c))
    ensures CoverResult(g, sh, c).C == g.C
    ensures forall h :: h in CoverShape(sh, g.C, c).active <==> h in sh.active && h != c
    ensures |CoverShape(sh, g.C, c).active| == |sh.active| - 1
  {
    ActiveHeader(g, sh, c);
    CoverKeepsColumns(g, sh, c);
    CoverKeepsRows(g, sh, c);
    CoverKeepsLive(g, sh, c);
    DistinctTail(0, sh.active);
    DropMembers(sh.active, c);
  }

  // ---------------------------------------------------------------------------
  // What the loops of cover and uncover walk
  // ---------------------------------------------------------------------------

  /** `Flat` of a prefix of `xs` is a prefix of `Flat(sh, xs)`. */
  lemma {:induction false} FlatPrefix(sh: Shape, xs: seq<int>, p: int)
    requires 0 <= p <= |xs|
    ensures Flat(sh, xs[..p]) <= Flat(sh, xs)
    decreases |xs| - p
  {
    if p < |xs| {
      FlatPrefix(sh, xs, p + 1);
      assert xs[..p + 1][..p] == xs[..p];
    } else {
      assert xs[..p] == xs;
    }
  }

  /** The entries cover handles while at the entry `col[p]` of its column are the
      next ones of `CoverList`, right after those of the entries above. */
  lemma CoverListAt(sh: Shape, col: seq<int>, p: int)
    requires 0 <= p < |col|
    ensures Flat(sh, col[..p + 1]) == Flat(sh, col[..p]) + Others(sh, col[p])
    ensures |Flat(sh, col[..p + 1])| <= |Flat(sh, col)|
    ensures Flat(sh, col)[..|Flat(sh, col[..p])|] == Flat(sh, col[..p])
    ensures Flat(sh, col)[..|Flat(sh, col[..p + 1])|] == Flat(sh, col[..p + 1])
  {
    assert col[..p + 1][..p] == col[..p];
    FlatPrefix(sh, col, p);
    FlatPrefix(sh, col, p + 1);
  }

  /** Unlinking header `c` from the header ring keeps every row ring. */
  lemma RowAfterHeaderUnlink(g: Arena, sh: Shape, c: int, x: int)
    requires Valid(g, sh) && c in sh.active && sh.m < x < sh.n
    ensures Has(Row(g), c) && Has(Row(g), g.R[c]) && Has(Row(g), g.L[c])
    ensures Ring(Row(UnlinkLR(g, c)), RowFrom(sh, x))
  {
    ActiveHeader(g, sh, c);
    OthersFacts(g, sh, x);
    var s := RowFrom(sh, x);
    assert forall h | h in [0] + sh.active :: h <= sh.m;
    forall y | y in s ensures Has(Row(UnlinkLR(g, c)), y)
      && Row(UnlinkLR(g, c)).next[y] == Row(g).next[y] && Row(UnlinkLR(g, c)).prev[y] == Row(g).prev[y]
    {
      RowMembers(g, sh, x, y);
    }
    RingFrame(Row(g), Row(UnlinkLR(g, c)), s);
  }

  /** The state right after `cover(c)` unlinks its header, ready for the loop:
      the columns are intact and the entries `js` to unlink are distinct
      entries of active columns other than `c`. */
  ghost predicate StartOk(g1: Arena, m: int, n: int, cols: seq<seq<int>>, js: seq<int>, c: int)
  {
    && Sized(g1) && Columns(Col(g1), g1.C, g1.size, m, n, cols) && 1 <= c <= m
    && Distinct(js)
    && forall j | j in js :: m < j < n && 1 <= g1.C[j] <= m && g1.C[j] != c && j in cols[g1.C[j] - 1]
  }

  lemma CoverStart(g: Arena, sh: Shape, c: int)
    requires Valid(g, sh) && c in sh.active
    ensures 1 <= c <= sh.m && Has(Row(g), c) && Has(Row(g), g.R[c]) && Has(Row(g), g.L[c])
    ensures StartOk(UnlinkLR(g, c), sh.m, sh.n, sh.cols, CoverList(sh, c), c)
    ensures UnlinkLR(g, c).C == g.C
  {
    ActiveHeader(g, sh, c);
    var g1 := UnlinkLR(g, c);
    assert Col(g1) == Col(g) && g1.size == g.size && g1.C == g.C && Sized(g1);
    CoverListBasics(g, sh, c);
  }

  /** Column `c` keeps its ring while cover works through the entries `js`. */
  lemma ColumnKept(g1: Arena, m: int, n: int, cols: seq<seq<int>>, js: seq<int>, c: int, t: int)
    requires StartOk(g1, m, n, cols, js, c) && 0 <= t <= |js|
    ensures Sized(CoverSteps(g1, js[..t]))
    ensures Ring(Col(CoverSteps(g1, js[..t])), [c] + cols[c - 1])
  {
    var pre := js[..t];
    PrefixOf(js, t);
    CoverStepsColumns(g1, m, n, cols, pre);
    StripUntouched(cols, g1.C, pre, c);
    assert ColumnOk(Col(CoverSteps(g1, pre)), g1.C, CoverSteps(g1, pre).size, m, n, StripCols(cols, g1.C, pre), c);
  }

  /** The entry `js[t]` can be unlinked, and is, by the `t`-th step. */
  lemma StepAt(g1: Arena, m: int, n: int, cols: seq<seq<int>>, js: seq<int>, c: int, t: int)
    requires StartOk(g1, m, n, cols, js, c) && 0 <= t < |js|
    ensures CanStep(CoverSteps(g1, js[..t]), js[t]) && Linked(Col(CoverSteps(g1, js[..t])), js[t])
    ensures CoverSteps(g1, js[..t + 1]) == CoverStep(CoverSteps(g1, js[..t]), js[t])
    ensures 1 <= g1.C[js[t]] <= m
  {
    assert js[t] in js;
    CoverStepsNext(g1, m, n, cols, js, t);
    CoverStepsSnoc(g1, js, t);
  }

  /** Column `c` keeps its ring while cover works through `CoverList`. */
  lemma CoveredColumnKept(g: Arena, sh: Shape, c: int, t: int)
    requires Valid(g, sh) && c in sh.active && 0 <= t <= |CoverList(sh, c)|
    ensures Has(Row(g), c) && Has(Row(g), g.R[c]) && Has(Row(g), g.L[c])
    ensures Ring(Col(CoverSteps(UnlinkLR(g, c), CoverList(sh, c)[..t])), [c] + sh.cols[c - 1])
    ensures Sized(CoverSteps(UnlinkLR(g, c), CoverList(sh, c)[..t]))
  {
    CoverStart(g, sh, c);
    ColumnKept(UnlinkLR(g, c), sh.m, sh.n, sh.cols, CoverList(sh, c), c, t);
  }

  /** The entry at position `t` of `CoverList` can be unlinked, and is, by the `t`-th step. */
  lemma CoverListStep(g: Arena, sh: Shape, c: int, t: int)
    requires Valid(g, sh) && c in sh.active && 0 <= t < |CoverList(sh, c)|
    ensures Has(Row(g), c) && Has(Row(g), g.R[c]) && Has(Row(g), g.L[c])
    ensures CanStep(CoverSteps(UnlinkLR(g, c), CoverList(sh, c)[..t]), CoverList(sh, c)[t])
    ensures Linked(Col(CoverSteps(UnlinkLR(g, c), CoverList(sh, c)[..t])), CoverList(sh, c)[t])
    ensures CoverSteps(UnlinkLR(g, c), CoverList(sh, c)[..t + 1])
         == CoverStep(CoverSteps(UnlinkLR(g, c), CoverList(sh, c)[..t]), CoverList(sh, c)[t])
    ensures 1 <= g.C[CoverList(sh, c)[t]] <= sh.m
  {
    CoverStart(g, sh, c);
    StepAt(UnlinkLR(g, c), sh.m, sh.n, sh.cols, CoverList(sh, c), c, t);
  }

  /** Step `u` of a run of `CoverStep`s over `js` from `g` can be taken and is taken. */
  ghost predicate StepOk(g: Arena, js: seq<int>, u: int)
  {
    && 0 <= u < |js|
    && CanStep(CoverSteps(g, js[..u]), js[u])
    && Linked(Col(CoverSteps(g, js[..u])), js[u])
    && CoverSteps(g, js[..u + 1]) == CoverStep(CoverSteps(g, js[..u]), js[u])
  }

  lemma CoverListSteps(g: Arena, sh: Shape, c: int)
    requires Valid(g, sh) && c in sh.active
    ensures Has(Row(g), c) && Has(Row(g), g.R[c]) && Has(Row(g), g.L[c])
    ensures forall u | 0 <= u < |CoverList(sh, c)| :: StepOk(UnlinkLR(g, c), CoverList(sh, c), u)
  {
    ActiveHeader(g, sh, c);
    forall u | 0 <= u < |CoverList(sh, c)| ensures StepOk(UnlinkLR(g, c), CoverList(sh, c), u) {
      CoverListStep(g, sh, c, u);
    }
  }

  /** `gs` is the run of states that `CoverStep` goes through over `o`, each step
      taken on an entry that is linked in its column. */
  ghost predicate Chained(gs: seq<Arena>, o: seq<int>)
  {
    && |gs| == |o| + 1
    && forall k | 0 <= k < |o| ::
         CanStep(gs[k], o[k]) && Linked(Col(gs[k]), o[k]) && gs[k + 1] == CoverStep(gs[k], o[k])
  }

  /** The row ring `[i] + o` and the run `gs` of steps over `o`. */
  ghost predicate RowPlan(ch: Chain, i: int, o: seq<int>, gs: seq<Arena>)
  {
    RingFrom(ch, i, o) && Chained(gs, o)
  }

  /** The states `cover` passes through on the row of `col[p]`, from `g1`, the
      state after the header is unlinked. */
  ghost function RowRun(g1: Arena, sh: Shape, col: seq<int>, p: int): (gs: seq<Arena>)
    requires 0 <= p < |col|
    ensures |gs| == |Others(sh, col[p])| + 1
    ensures forall k | 0 <= k < |gs| :: gs[k] == CoverSteps(g1, Flat(sh, col[..p]) + Others(sh, col[p])[..k])
  {
    var o := Others(sh, col[p]);
    seq(|o| + 1, k requires 0 <= k <= |o| => CoverSteps(g1, Flat(sh, col[..p]) + o[..k]))
  }

  /** The states `cover` reaches after each whole row of `col`. */
  ghost function Stages(g1: Arena, sh: Shape, col: seq<int>): (ws: seq<Arena>)
    ensures |ws| == |col| + 1
    ensures forall p | 0 <= p <= |col| :: ws[p] == CoverSteps(g1, Flat(sh, col[..p]))
  {
    seq(|col| + 1, p requires 0 <= p <= |col| => CoverSteps(g1, Flat(sh, col[..p])))
  }

  ghost function Runs(g1: Arena, sh: Shape, col: seq<int>): (gss: seq<seq<Arena>>)
    ensures |gss| == |col| && forall p | 0 <= p < |col| :: gss[p] == RowRun(g1, sh, col, p)
  {
    seq(|col|, p requires 0 <= p < |col| => RowRun(g1, sh, col, p))
  }

  ghost function RowsOf(sh: Shape, col: seq<int>): (os: seq<seq<int>>)
    ensures |os| == |col| && forall p | 0 <= p < |col| :: os[p] == Others(sh, col[p])
  {
    seq(|col|, p requires 0 <= p < |col| => Others(sh, col[p]))
  }

  /** Every stage `ws[p]` keeps the row links `rowch` and the column ring `[c] + col`. */
  ghost predicate StagesOk(c: int, col: seq<int>, ws: seq<Arena>, rowch: Chain)
  {
    && |ws| == |col| + 1
    && forall p | 0 <= p <= |col| ::
         ws[p].R == rowch.next && ws[p].L == rowch.prev && RingFrom(Col(ws[p]), c, col)
  }

  /** The row of `col[p]` is the ring `[col[p]] + os[p]`, and the run `gss[p]` of
      steps over it leads from `ws[p]` to `ws[p + 1]`. */
  ghost predicate RunsOk(col: seq<int>, os: seq<seq<int>>, gss: seq<seq<Arena>>, ws: seq<Arena>, rowch: Chain)
  {
    && |ws| == |col| + 1 && |os| == |col| && |gss| == |col|
    && forall p | 0 <= p < |col| ::
         && RowPlan(rowch, col[p], os[p], gss[p])
         && gss[p][0] == ws[p] && gss[p][|os[p]|] == ws[p + 1]
  }

  /** What the loops of `cover` and `uncover` walk. */
  ghost predicate ColumnPlan(c: int, col: seq<int>, os: seq<seq<int>>, gss: seq<seq<Arena>>,
                             ws: seq<Arena>, rowch: Chain)
  {
    StagesOk(c, col, ws, rowch) && RunsOk(col, os, gss, ws, rowch)
  }

  /** What the loop of `cover` walking down column `c` needs: the entry below the
      header, and at each entry the step `DownAt`. */
  ghost predicate WalkDown(c: int, col: seq<int>, os: seq<seq<int>>, gss: seq<seq<Arena>>, ws: seq<Arena>, rowch: Chain)
  {
    && |ws| == |col| + 1 && |os| == |col| && |gss| == |col| && c !in col
    && Has(Col(ws[0]), c) && ws[0].D[c] == (if col == [] then c else col[0])
    && forall p | 0 <= p < |col| :: DownAt(c, col, os, gss, ws, rowch, p)
  }

  /** Entry `col[p]`: its row plan leads from stage `p` to stage `p + 1`, which
      still has `col[p]` in the column, followed by the next entry or the header. */
  ghost predicate DownAt(c: int, col: seq<int>, os: seq<seq<int>>, gss: seq<seq<Arena>>, ws: seq<Arena>, rowch: Chain, p: int)
    requires |ws| == |col| + 1 && |os| == |col| && |gss| == |col| && 0 <= p < |col|
  {
    && Row(ws[p]) == rowch && RowPlan(rowch, col[p], os[p], gss[p])
    && gss[p][0] == ws[p] && gss[p][|os[p]|] == ws[p + 1]
    && Has(Col(ws[p + 1]), col[p]) && ws[p + 1].D[col[p]] == (if p + 1 < |col| then col[p + 1] else c)
  }

  /** The same for the loop of `uncover` walking up column `c` from the last stage. */
  ghost predicate WalkUp(c: int, col: seq<int>, os: seq<seq<int>>, gss: seq<seq<Arena>>, ws: seq<Arena>, rowch: Chain)
  {
    && |ws| == |col| + 1 && |os| == |col| && |gss| == |col| && c !in col
    && Has(Col(ws[|col|]), c) && ws[|col|].U[c] == (if col == [] then c else col[|col| - 1])
    && forall p | 0 <= p < |col| :: UpAt(c, col, os, gss, ws, rowch, p)
  }

  /** Entry `col[p]`: its row plan leads back from stage `p + 1` to stage `p`, which
      has `col[p]` in the column, below the previous entry or the header. */
  ghost predicate UpAt(c: int, col: seq<int>, os: seq<seq<int>>, gss: seq<seq<Arena>>, ws: seq<Arena>, rowch: Chain, p: int)
    requires |ws| == |col| + 1 && |os| == |col| && |gss| == |col| && 0 <= p < |col|
  {
    && Row(ws[p + 1]) == rowch && RowPlan(rowch, col[p], os[p], gss[p])
    && gss[p][0] == ws[p] && gss[p][|os[p]|] == ws[p + 1]
    && Has(Col(ws[p]), col[p]) && ws[p].U[col[p]] == (if p == 0 then c else col[p - 1])
  }

  lemma PlanWalks(c: int, col: seq<int>, os: seq<seq<int>>, gss: seq<seq<Arena>>, ws: seq<Arena>, rowch: Chain)
    requires ColumnPlan(c, col, os, gss, ws, rowch)
    ensures WalkDown(c, col, os, gss, ws, rowch) && WalkUp(c, col, os, gss, ws, rowch)
  {
    assert RingFrom(Col(ws[0]), c, col);
    RingFirst(Col(ws[0]), c, col);
    assert RingFrom(Col(ws[|col|]), c, col);
    RingFirst(Col(ws[|col|]), c, col);
    forall p | 0 <= p < |col|
      ensures DownAt(c, col, os, gss, ws, rowch, p) && UpAt(c, col, os, gss, ws, rowch, p)
    {
      assert RowPlan(rowch, col[p], os[p], gss[p]);
      assert RingFrom(Col(ws[p + 1]), c, col);
      RingNext(Col(ws[p + 1]), c, col, p);
      assert RingFrom(Col(ws[p]), c, col);
      RingNext(Col(ws[p]), c, col, p);
    }
  }

  /** Stage `p` of covering column `c` keeps the column ring of `c`. */
  lemma StageAt(g: Arena, sh: Shape, c: int, p: int)
    requires Valid(g, sh) && c in sh.active && 1 <= c <= |sh.cols| && 0 <= p <= |sh.cols[c - 1]|
    ensures Has(Row(g), c) && Has(Row(g), g.R[c]) && Has(Row(g), g.L[c])
    ensures Ring(Col(CoverSteps(UnlinkLR(g, c), Flat(sh, sh.cols[c - 1][..p]))), [c] + sh.cols[c - 1])
  {
    var col := sh.cols[c - 1];
    var js := CoverList(sh, c);
    var t := |Flat(sh, col[..p])|;
    if p < |col| {
      CoverListAt(sh, col, p);
    } else {
      assert col[..p] == col;
    }
    assert t <= |js| && js[..t] == Flat(sh, col[..p]);
    CoveredColumnKept(g, sh, c, t);
  }

  /** Step `k` of a stretch `o` of `js`, after the prefix `f`, seen from `f + o[..k]`. */
  lemma RunStep(g1: Arena, js: seq<int>, f: seq<int>, o: seq<int>, k: int)
    requires |f| + |o| <= |js| && js[..|f| + |o|] == f + o && 0 <= k < |o|
    requires StepOk(g1, js, |f| + k)
    ensures CanStep(CoverSteps(g1, f + o[..k]), o[k])
    ensures Linked(Col(CoverSteps(g1, f + o[..k])), o[k])
    ensures CoverSteps(g1, f + o[..k + 1]) == CoverStep(CoverSteps(g1, f + o[..k]), o[k])
  {
    var t := |f|;
    var w := js[..t + |o|];
    assert js[..t + k] == w[..t + k] && js[..t + k + 1] == w[..t + k + 1] && js[t + k] == w[t + k];
    assert (f + o)[..t + k] == f + o[..k];
    assert (f + o)[..t + k + 1] == f + o[..k + 1];
    assert (f + o)[t + k] == o[k];
  }

  /** A stretch `o` of `js`, after the prefix `f`, whose steps are all taken is a chained run. */
  lemma RunChained(g1: Arena, js: seq<int>, f: seq<int>, o: seq<int>, gs: seq<Arena>)
    requires |f| + |o| <= |js| && js[..|f| + |o|] == f + o
    requires forall u | |f| <= u < |f| + |o| :: StepOk(g1, js, u)
    requires |gs| == |o| + 1 && forall k | 0 <= k <= |o| :: gs[k] == CoverSteps(g1, f + o[..k])
    ensures Chained(gs, o)
  {
    forall k | 0 <= k < |o|
      ensures CanStep(gs[k], o[k]) && Linked(Col(gs[k]), o[k]) && gs[k + 1] == CoverStep(gs[k], o[k])
    {
      assert StepOk(g1, js, |f| + k);
      RunStep(g1, js, f, o, k);
    }
  }

  /** The run over the row of `col[p]` is chained when every step over `Flat(sh, col)` is taken. */
  lemma RowRunChained(g1: Arena, sh: Shape, col: seq<int>, p: int)
    requires 0 <= p < |col|
    requires forall u | 0 <= u < |Flat(sh, col)| :: StepOk(g1, Flat(sh, col), u)
    ensures Chained(RowRun(g1, sh, col, p), Others(sh, col[p]))
  {
    CoverListAt(sh, col, p);
    RunChained(g1, Flat(sh, col), Flat(sh, col[..p]), Others(sh, col[p]), RowRun(g1, sh, col, p));
  }

  /** The run over the row of `col[p]` is chained, from stage `p` to stage `p + 1`. */
  lemma RowRunAt(g: Arena, sh: Shape, c: int, p: int)
    requires Valid(g, sh) && c in sh.active && 1 <= c <= |sh.cols| && 0 <= p < |sh.cols[c - 1]|
    ensures Has(Row(g), c) && Has(Row(g), g.R[c]) && Has(Row(g), g.L[c])
    ensures Chained(RowRun(UnlinkLR(g, c), sh, sh.cols[c - 1], p), Others(sh, sh.cols[c - 1][p]))
  {
    ActiveHeader(g, sh, c);
    CoverListSteps(g, sh, c);
    assert CoverList(sh, c) == Flat(sh, sh.cols[c - 1]);
    RowRunChained(UnlinkLR(g, c), sh, sh.cols[c - 1], p);
  }

  /** The row of `col[p]` is still a ring once the header `c` is unlinked. */
  lemma RowRingAt(g: Arena, sh: Shape, c: int, p: int)
    requires Valid(g, sh) && c in sh.active && 1 <= c <= |sh.cols| && 0 <= p < |sh.cols[c - 1]|
    ensures Has(Row(g), c) && Has(Row(g), g.R[c]) && Has(Row(g), g.L[c])
    ensures Ring(Row(UnlinkLR(g, c)), [sh.cols[c - 1][p]] + Others(sh, sh.cols[c - 1][p]))
  {
    var x := sh.cols[c - 1][p];
    CoverListBasics(g, sh, c);
    assert x in sh.cols[c - 1];
    RowAfterHeaderUnlink(g, sh, c, x);
    assert RowFrom(sh, x) == [x] + Others(sh, x);
  }

  /** The run over the row of `col[p]` starts at stage `p` and ends at stage `p + 1`. */
  lemma RunEnds(g1: Arena, sh: Shape, col: seq<int>, p: int)
    requires 0 <= p < |col|
    ensures RowRun(g1, sh, col, p)[0] == CoverSteps(g1, Flat(sh, col[..p]))
    ensures RowRun(g1, sh, col, p)[|Others(sh, col[p])|] == CoverSteps(g1, Flat(sh, col[..p + 1]))
  {
    var f := Flat(sh, col[..p]);
    var o := Others(sh, col[p]);
    CoverListAt(sh, col, p);
    assert f + o[..0] == f;
    assert o[..|o|] == o;
  }

  lemma CoverStages(g: Arena, sh: Shape, c: int)
    requires Valid(g, sh) && c in sh.active && 1 <= c <= |sh.cols|
    ensures Has(Row(g), c) && Has(Row(g), g.R[c]) && Has(Row(g), g.L[c])
    ensures StagesOk(c, sh.cols[c - 1], Stages(UnlinkLR(g, c), sh, sh.cols[c - 1]), Row(UnlinkLR(g, c)))
  {
    ActiveHeader(g, sh, c);
    var col := sh.cols[c - 1];
    var g1 := UnlinkLR(g, c);
    var ws := Stages(g1, sh, col);
    forall p | 0 <= p <= |col|
      ensures ws[p].R == g1.R && ws[p].L == g1.L && Ring(Col(ws[p]), [c] + col)
    {
      StageAt(g, sh, c, p);
    }
  }

  lemma CoverRuns(g: Arena, sh: Shape, c: int)
    requires Valid(g, sh) && c in sh.active && 1 <= c <= |sh.cols|
    ensures Has(Row(g), c) && Has(Row(g), g.R[c]) && Has(Row(g), g.L[c])
    ensures RunsOk(sh.cols[c - 1], RowsOf(sh, sh.cols[c - 1]), Runs(UnlinkLR(g, c), sh, sh.cols[c - 1]),
                   Stages(UnlinkLR(g, c), sh, sh.cols[c - 1]), Row(UnlinkLR(g, c)))
  {
    ActiveHeader(g, sh, c);
    var col := sh.cols[c - 1];
    var g1 := UnlinkLR(g, c);
    var os := RowsOf(sh, col);
    var gss := Runs(g1, sh, col);
    var ws := Stages(g1, sh, col);
    forall p | 0 <= p < |col|
      ensures && RowPlan(Row(g1), col[p], os[p], gss[p])
              && gss[p][0] == ws[p] && gss[p][|os[p]|] == ws[p + 1]
    {
      RowRunAt(g, sh, c, p);
      RowRingAt(g, sh, c, p);
      RunEnds(g1, sh, col, p);
    }
  }

  /** The whole plan that `cover` and `uncover` follow on column `c`. */
  lemma CoverPlan(g: Arena, sh: Shape, c: int)
    requires Valid(g, sh) && c in sh.active
    ensures 1 <= c <= |sh.cols| && Has(Row(g), c) && Has(Row(g), g.R[c]) && Has(Row(g), g.L[c])
    ensures var col := sh.cols[c - 1]; var g1 := UnlinkLR(g, c);
      WalkDown(c, col, RowsOf(sh, col), Runs(g1, sh, col), Stages(g1, sh, col), Row(g1))
    ensures var col := sh.cols[c - 1]; var g1 := UnlinkLR(g, c);
      WalkUp(c, col, RowsOf(sh, col), Runs(g1, sh, col), Stages(g1, sh, col), Row(g1))
    ensures Stages(UnlinkLR(g, c), sh, sh.cols[c - 1])[0] == UnlinkLR(g, c)
    ensures Stages(UnlinkLR(g, c), sh, sh.cols[c - 1])[|sh.cols[c - 1]|] == CoverResult(g, sh, c)
  {
    ActiveHeader(g, sh, c);
    CoverStages(g, sh, c);
    CoverRuns(g, sh, c);
    var col := sh.cols[c - 1];
    assert col[..0] == [] && col[..|col|] == col;
    var g1 := UnlinkLR(g, c);
    PlanWalks(c, col, RowsOf(sh, col), Runs(g1, sh, col), Stages(g1, sh, col), Row(g1));
  }
}
