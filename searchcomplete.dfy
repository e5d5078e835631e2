/** The other half of what `DLX.search` promises: it reports every exact cover
    of the matrix it starts from, and no set of rows twice. An answer is a list
    of 1-entries, one per chosen row; two answers choose the same rows when
    their `RowSet`s agree. */
module SearchComplete {
  import opened Rings
  import opened Matrix
  import opened CoverFacts
  import opened Algorithm
  import opened SearchState
  import opened SearchFacts
  import Grid
  import BoardFacts
  import GridRows

  /** Every 1-entry whose row lies wholly in live columns is still in its
      column: a row leaves the matrix only with a column it crosses. */
  ghost predicate Full(sh: Shape, C: seq<int>)
  {
    forall x | sh.m < x < sh.n && 0 <= x < |C| && 1 <= C[x] <= |sh.cols| && RowColumns(sh, C, x) <= Elems(sh.active) ::
      x in sh.cols[C[x] - 1]
  }

  /** The rows the entries `A` choose. */
  ghost function RowSet(sh: Shape, A: seq<int>): set<int>
  {
    set i | 0 <= i < |A| && 0 <= A[i] < |sh.rowOf| :: sh.rowOf[A[i]]
  }

  // ---------------------------------------------------------------------------
  // The matrix stays full
  // ---------------------------------------------------------------------------

  /** The matrix `makeDLXBoard` builds holds every 1-entry in its column. */
  lemma FullBuilt(g: Arena, m: nat, r: nat, cs: seq<Grid.Cell>)
    requires Grid.CellsOk(cs, m, r) && Sound(g, Grid.ShapeOf(m, r, cs))
    ensures Full(Grid.ShapeOf(m, r, cs), g.C)
  {
    var sh := Grid.ShapeOf(m, r, cs);
    forall x | sh.m < x < sh.n && 0 <= x < |g.C| && 1 <= g.C[x] <= |sh.cols| && RowColumns(sh, g.C, x) <= Elems(sh.active)
      ensures x in sh.cols[g.C[x] - 1]
    {
      GridRows.NodeColumn(g, m, r, cs, x);
      var j := cs[x - 1 - m].j;
      BoardFacts.ColumnNodesHas(cs, 1 + m, j, x);
      assert sh.cols[j] == Grid.ColumnNodes(cs, 1 + m, j);
    }
  }

  /** An entry `cover(c)` unlinks lies in a row that crosses column `c`. */
  lemma ListedCrosses(g: Arena, sh: Shape, c: int, x: int)
    requires Sound(g, sh) && c in sh.active
    ensures x in CoverList(sh, c) ==> c in RowColumns(sh, g.C, x)
  {
    CoverListFacts(g, sh, c);
    if x in CoverList(sh, c) {
      var i :| i in sh.cols[c - 1] && 0 <= i < |sh.rowOf| && sh.rowOf[i] == sh.rowOf[x];
      assert Members(sh.cols[c - 1], g.C, sh.m, sh.n, c);
      assert InRow(sh, i) && i in sh.rows[sh.rowOf[x]];
    }
  }

  /** `cover(c)` keeps the matrix full: an entry whose row misses `c` stays put. */
  lemma FullCover(g: Arena, sh: Shape, c: int)
    requires Sound(g, sh) && Full(sh, g.C) && c in sh.active
    ensures Full(CoverShape(sh, g.C, c), g.C)
  {
    var sh1 := CoverShape(sh, g.C, c);
    assert Valid(g, sh);
    SoundCover(g, sh, c);
    SetsOf(g, sh);
    forall x | sh1.m < x < sh1.n && 0 <= x < |g.C| && 1 <= g.C[x] <= |sh1.cols| && RowColumns(sh1, g.C, x) <= Elems(sh1.active)
      ensures x in sh1.cols[g.C[x] - 1]
    {
      assert RowColumns(sh1, g.C, x) == RowColumns(sh, g.C, x);
      assert x in sh.cols[g.C[x] - 1];
      ListedCrosses(g, sh, c, x);
      StripMembers(g, sh, CoverList(sh, c), g.C[x], x);
    }
  }

  /** Covering the columns of the entries `js` in turn keeps the matrix full. */
  lemma {:induction false} FullCoverAll(g: Arena, sh: Shape, js: seq<int>)
    requires Sound(g, sh) && Full(sh, g.C) && ColumnsFree(sh, g.C, js)
    ensures Full(CoverAll(sh, g.C, js), g.C)
    decreases |js|
  {
    if js != [] {
      var q := |js| - 1;
      ColumnsFreePrefix(sh, g.C, js, q);
      FullCoverAll(g, sh, js[..q]);
      SearchFacts.StageAt(g, sh, js, q);
      FullCover(CoverArena(g, sh, js[..q]), CoverAll(sh, g.C, js[..q]), ColumnOf(g.C, js[q]));
    }
  }

  // ---------------------------------------------------------------------------
  // Answers and their rows
  // ---------------------------------------------------------------------------

  /** A 1-entry's row crosses the entry's own column. */
  lemma InRowColumn(g: Arena, sh: Shape, x: int)
    requires Sound(g, sh)
    ensures InRow(sh, x) ==> 0 <= x < |g.C| && g.C[x] in RowColumns(sh, g.C, x)
  {
    if InRow(sh, x) {
      assert Valid(g, sh);
      assert RowOk(Row(g), g.C, sh, sh.rowOf[x]);
      assert x in sh.rows[sh.rowOf[x]];
    }
  }

  /** With no column left, the only exact cover is the empty one. */
  lemma EmptyCover(g: Arena, sh: Shape, base: Shape, B: seq<int>)
    requires Sound(g, sh) && base.rows == sh.rows && base.rowOf == sh.rowOf
    requires ExactCover(base, g.C, B, {})
    ensures B == []
  {
    InRowColumn(g, sh, if B == [] then 0 else B[0]);
  }

  /** Choosing `y` first, then the rows of `A`. */
  lemma RowSetCons(sh: Shape, y: int, A: seq<int>)
    requires 0 <= y < |sh.rowOf|
    ensures RowSet(sh, [y] + A) == {sh.rowOf[y]} + RowSet(sh, A)
  {
    var A' := [y] + A;
    forall k | k in RowSet(sh, A') ensures k in {sh.rowOf[y]} + RowSet(sh, A) {
      var i :| 0 <= i < |A'| && 0 <= A'[i] < |sh.rowOf| && sh.rowOf[A'[i]] == k;
      if i > 0 {
        assert A'[i] == A[i - 1];
      }
    }
    forall k | k in RowSet(sh, A) ensures k in RowSet(sh, A') {
      var i :| 0 <= i < |A| && 0 <= A[i] < |sh.rowOf| && sh.rowOf[A[i]] == k;
      assert A'[i + 1] == A[i];
    }
    assert A'[0] == y;
  }

  /** The entries of `A` without the one at `i`. */
  function Skip(A: seq<int>, i: int): (B: seq<int>)
    requires 0 <= i < |A|
    ensures |B| == |A| - 1
    ensures forall j | 0 <= j < |B| :: B[j] == A[if j < i then j else j + 1]
  {
    A[..i] + A[i + 1..]
  }

  /** Taking one row out of an exact cover leaves an exact cover of the
      columns the row did not cover. */
  lemma CoverWithout(sh: Shape, C: seq<int>, A: seq<int>, i: int, hs: set<int>)
    requires ExactCover(sh, C, A, hs) && 0 <= i < |A|
    ensures ExactCover(sh, C, Skip(A, i), hs - RowColumns(sh, C, A[i]))
  {
    var B := Skip(A, i);
    var rc := RowColumns(sh, C, A[i]);
    forall j | 0 <= j < |B| ensures InRow(sh, B[j]) && RowColumns(sh, C, B[j]) <= hs - rc {
      var j' := if j < i then j else j + 1;
      assert B[j] == A[j'];
      if j' < i {
        assert RowColumns(sh, C, A[j']) !! rc;
      } else {
        assert RowColumns(sh, C, A[i]) !! RowColumns(sh, C, A[j']);
      }
    }
    forall j, k | 0 <= j < k < |B| ensures RowColumns(sh, C, B[j]) !! RowColumns(sh, C, B[k]) {
      var j', k' := if j < i then j else j + 1, if k < i then k else k + 1;
      assert B[j] == A[j'] && B[k] == A[k'] && j' < k';
    }
    forall h | h in hs - rc ensures exists j | 0 <= j < |B| :: h in RowColumns(sh, C, B[j]) {
      var t :| 0 <= t < |A| && h in RowColumns(sh, C, A[t]);
      assert t != i;
      var j := if t < i then t else t - 1;
      assert B[j] == A[t];
    }
  }

  /** The rows of `A` are the row at `i` and those of the rest. */
  lemma RowSetWithout(sh: Shape, A: seq<int>, i: int)
    requires 0 <= i < |A| && 0 <= A[i] < |sh.rowOf|
    ensures RowSet(sh, A) == {sh.rowOf[A[i]]} + RowSet(sh, Skip(A, i))
  {
    var B := Skip(A, i);
    forall k | k in RowSet(sh, A) ensures k in {sh.rowOf[A[i]]} + RowSet(sh, B) {
      var t :| 0 <= t < |A| && 0 <= A[t] < |sh.rowOf| && sh.rowOf[A[t]] == k;
      if t != i {
        var j := if t < i then t else t - 1;
        assert B[j] == A[t];
      }
    }
    forall k | k in RowSet(sh, B) ensures k in RowSet(sh, A) {
      var j :| 0 <= j < |B| && 0 <= B[j] < |sh.rowOf| && sh.rowOf[B[j]] == k;
      var t := if j < i then j else j + 1;
      assert B[j] == A[t];
    }
  }

  /** The row of an exact cover that crosses live column `c` has an entry in
      column `c` of the full matrix `sh`, which covers the same columns. */
  lemma ColumnEntry(g: Arena, sh: Shape, base: Shape, B: seq<int>, i: int, c: int) returns (y: int)
    requires Sound(g, sh) && Full(sh, g.C) && base.rows == sh.rows && base.rowOf == sh.rowOf
    requires ExactCover(base, g.C, B, Elems(sh.active)) && 0 <= i < |B|
    requires c in sh.active && c in RowColumns(base, g.C, B[i])
    ensures 1 <= c <= |sh.cols| && y in sh.cols[c - 1]
    ensures 0 <= y < |base.rowOf| && base.rowOf[y] == base.rowOf[B[i]]
    ensures RowColumns(base, g.C, y) == RowColumns(base, g.C, B[i])
  {
    var x := B[i];
    assert InRow(sh, x);
    assert RowColumns(base, g.C, x) <= Elems(sh.active);
    y :| y in sh.rows[sh.rowOf[x]] && 0 <= y < |g.C| && g.C[y] == c;
    RowEntry(g, sh, base, x, y);
  }

  /** Every entry `y` of the row of `x`, a row within the live columns of the
      full matrix `sh`, sits in the ring of its column. */
  lemma RowEntry(g: Arena, sh: Shape, base: Shape, x: int, y: int)
    requires Sound(g, sh) && Full(sh, g.C) && base.rows == sh.rows && base.rowOf == sh.rowOf
    requires InRow(sh, x) && y in sh.rows[sh.rowOf[x]] && RowColumns(base, g.C, x) <= Elems(sh.active)
    ensures 0 <= y < |g.C| && 1 <= g.C[y] <= |sh.cols| && y in sh.cols[g.C[y] - 1]
    ensures 0 <= y < |base.rowOf| && base.rowOf[y] == base.rowOf[x]
    ensures RowColumns(base, g.C, y) == RowColumns(base, g.C, x)
  {
    SoundRows(g, sh);
    RowMembers(g, sh, x, y);
    SameRowColumns(sh, base, g.C, x, y);
  }

  /** The row rings of a sound matrix, and its column count. */
  lemma SoundRows(g: Arena, sh: Shape)
    requires Sound(g, sh)
    ensures Rows(g, sh) && sh.m == |sh.cols|
  {
    assert Valid(g, sh);
  }

  /** Two 1-entries of one row cross the same columns, in any matrix with the
      same rows. */
  lemma SameRowColumns(sh: Shape, base: Shape, C: seq<int>, x: int, y: int)
    requires base.rows == sh.rows && base.rowOf == sh.rowOf
    requires InRow(sh, x) && InRow(sh, y) && sh.rowOf[y] == sh.rowOf[x]
    ensures RowColumns(base, C, y) == RowColumns(base, C, x) == RowColumns(sh, C, y)
  {
  }

  /** An answer of the matrix row `r == rs[p]` leaves, after `r`, is an
      answer of the search over the rows `rs` of a covered column. */
  lemma {:induction false} BranchesHas(sh: Shape, C: seq<int>, rs: seq<int>, p: int, r: int, A: seq<int>)
    requires 0 <= p < |rs| && rs[p] == r && A in Solve(CoverAll(sh, C, Others(sh, r)), C)
    ensures [r] + A in Branches(sh, C, rs)
    decreases |rs|
  {
    var q := |rs| - 1;
    if p < q {
      var init := rs[..q];
      assert init[p] == r;
      BranchesHas(sh, C, init, p, r, A);
      BranchesGrow(sh, C, rs, [r] + A);
    } else {
      assert p == q;
      assert rs[q] == r;
      BranchesLast(sh, C, rs, r, A);
    }
  }

  /** The answers over all but the last row of `rs` are answers over `rs`. */
  lemma BranchesGrow(sh: Shape, C: seq<int>, rs: seq<int>, A: seq<int>)
    requires rs != [] && A in Branches(sh, C, rs[..|rs| - 1])
    ensures A in Branches(sh, C, rs)
  {
  }

  /** The answers of the last row `r` of `rs`, after it, are answers over `rs`. */
  lemma BranchesLast(sh: Shape, C: seq<int>, rs: seq<int>, r: int, A: seq<int>)
    requires rs != [] && rs[|rs| - 1] == r && A in Solve(CoverAll(sh, C, Others(sh, r)), C)
    ensures [r] + A in Branches(sh, C, rs)
  {
    ExtendHas(r, Solve(CoverAll(sh, C, Others(sh, r)), C), A);
  }

  /** `[r] + A` is among the answers `Extend([r], S)` when `A` is among `S`. */
  lemma ExtendHas(r: int, S: seq<seq<int>>, A: seq<int>)
    requires A in S
    ensures [r] + A in Extend([r], S)
  {
    var k :| 0 <= k < |S| && S[k] == A;
    assert Extend([r], S)[k] == [r] + A;
  }

  // ---------------------------------------------------------------------------
  // Completeness
  // ---------------------------------------------------------------------------

  /** Every exact cover `B` of the live columns of a full, well-formed matrix is
      found by the search: some answer it reports chooses exactly the rows of
      `B`. The proof follows the search: the chosen column `c` is crossed by one
      row of `B`, whose entry in `c` is one of the rows tried, and the rest of
      `B` is an exact cover of the matrix that row leaves. */
  lemma {:induction false} SolveComplete(g: Arena, sh: Shape, base: Shape, B: seq<int>)
    requires Sound(g, sh) && Full(sh, g.C) && base.rows == sh.rows && base.rowOf == sh.rowOf
    requires ExactCover(base, g.C, B, Elems(sh.active))
    ensures exists A | A in Solve(sh, g.C) :: RowSet(base, A) == RowSet(base, B)
    decreases |sh.active|
  {
    if sh.active == [] {
      assert Elems(sh.active) == {};
      EmptyCover(g, sh, base, B);
      assert [] in Solve(sh, g.C);
    } else {
      ChooseActive(g, sh);
      var c := Choose(sh);
      assert c in Elems(sh.active);
      var i :| 0 <= i < |B| && c in RowColumns(base, g.C, B[i]);
      var y := ColumnEntry(g, sh, base, B, i, c);
      SoundCoveredColumn(g, sh, c);
      var sh1 := CoverShape(sh, g.C, c);
      var col := Column(sh1, c);
      var p :| 0 <= p < |col| && col[p] == y;
      assert Picked(g, sh, c, y);
      RowLeaves(g, sh, c, y, base);
      PickRow(g, sh, c, y);
      SoundCover(g, sh, c);
      FullCover(g, sh, c);
      var g1 := AfterCover(g, sh, c);
      var o := Others(sh1, y);
      FullCoverAll(g1, sh1, o);
      var sh2 := CoverAll(sh1, g.C, o);
      CoverWithout(base, g.C, B, i, Elems(sh.active));
      SolveComplete(CoverArena(g1, sh1, o), sh2, base, Skip(B, i));
      var A0 :| A0 in Solve(sh2, g.C) && RowSet(base, A0) == RowSet(base, Skip(B, i));
      BranchesHas(sh1, g.C, col, p, y, A0);
      SolveStep(sh, g.C);
      RowSetCons(base, y, A0);
      RowSetWithout(base, B, i);
      assert [y] + A0 in Solve(sh, g.C);
    }
  }

  /** On the matrix `makeDLXBoard` builds from the cells `cs`, the search
      reports every exact cover of all the columns. */
  lemma BuiltComplete(g: Arena, m: nat, r: nat, cs: seq<Grid.Cell>, B: seq<int>)
    requires Grid.CellsOk(cs, m, r) && Sound(g, Grid.ShapeOf(m, r, cs))
    requires ExactCover(Grid.ShapeOf(m, r, cs), g.C, B, Elems(Grid.ShapeOf(m, r, cs).active))
    ensures exists A | A in Solve(Grid.ShapeOf(m, r, cs), g.C) :: RowSet(Grid.ShapeOf(m, r, cs), A) == RowSet(Grid.ShapeOf(m, r, cs), B)
  {
    FullBuilt(g, m, r, cs);
    SolveComplete(g, Grid.ShapeOf(m, r, cs), Grid.ShapeOf(m, r, cs), B);
  }

  // ---------------------------------------------------------------------------
  // No set of rows twice
  // ---------------------------------------------------------------------------

  /** Two different entries of one column lie in different rows. */
  lemma ColumnRowsDiffer(g: Arena, sh: Shape, c: int, a: int, b: int)
    requires Sound(g, sh) && c in sh.active && 1 <= c <= |sh.cols| && a in sh.cols[c - 1] && b in sh.cols[c - 1]
    ensures InRow(sh, a) && InRow(sh, b)
    ensures a != b ==> sh.rowOf[a] != sh.rowOf[b]
  {
    SoundRow(g, sh, c, a);
    SoundRow(g, sh, c, b);
    if sh.rowOf[a] == sh.rowOf[b] {
      SoundSameColumn(g, sh, a, b);
    }
  }

  /** A row whose columns are all gone from `hs` is not among the rows of an
      exact cover of `hs`. */
  lemma RowGone(sh: Shape, C: seq<int>, A: seq<int>, hs: set<int>, r: int, c: int)
    requires ExactCover(sh, C, A, hs) && 0 <= r < |sh.rowOf| && c in RowColumns(sh, C, r) && RowColumns(sh, C, r) !! hs
    ensures sh.rowOf[r] !in RowSet(sh, A)
  {
    forall t | 0 <= t < |A| && 0 <= A[t] < |sh.rowOf| ensures sh.rowOf[A[t]] != sh.rowOf[r] {
      assert RowColumns(sh, C, A[t]) <= hs;
    }
  }

  /** An exact cover whose first row is entry `a` of column `c` does not
      choose the row of another entry `r` of that column. */
  lemma OtherRowOut(g: Arena, sh: Shape, base: Shape, c: int, A: seq<int>, r: int)
    requires Sound(g, sh) && base.rows == sh.rows && base.rowOf == sh.rowOf
    requires c in sh.active && 1 <= c <= |sh.cols| && r in sh.cols[c - 1]
    requires A != [] && A[0] in sh.cols[c - 1] && A[0] != r
    requires ExactCover(base, g.C, A, Elems(sh.active))
    ensures 0 <= r < |base.rowOf| && base.rowOf[r] !in RowSet(base, A)
  {
    SoundRow(g, sh, c, r);
    SoundRow(g, sh, c, A[0]);
    ColumnRowsDiffer(g, sh, c, A[0], r);
    assert r in sh.rows[sh.rowOf[r]] && A[0] in sh.rows[sh.rowOf[A[0]]];
    assert c in RowColumns(base, g.C, r) && c in RowColumns(base, g.C, A[0]);
    forall t | 0 <= t < |A| && 0 <= A[t] < |base.rowOf| ensures base.rowOf[A[t]] != base.rowOf[r] {
      if t > 0 {
        assert RowColumns(base, g.C, A[0]) !! RowColumns(base, g.C, A[t]);
      }
    }
  }

  /** Every answer of the search over the rows `rs` starts with one of them. */
  lemma {:induction false} BranchesHeads(sh: Shape, C: seq<int>, rs: seq<int>)
    ensures forall A | A in Branches(sh, C, rs) :: A != [] && A[0] in rs
    decreases |rs|
  {
    if rs != [] {
      var q := |rs| - 1;
      BranchesHeads(sh, C, rs[..q]);
      var S := Solve(CoverAll(sh, C, Others(sh, rs[q])), C);
      forall A | A in Branches(sh, C, rs) ensures A != [] && A[0] in rs {
        if A !in Branches(sh, C, rs[..q]) {
          var k :| 0 <= k < |S| && Extend([rs[q]], S)[k] == A;
        }
      }
    }
  }

  /** The rows each answer of `S` chooses, in order. */
  ghost function RowSets(sh: Shape, S: seq<seq<int>>): (X: seq<set<int>>)
    ensures |X| == |S| && forall i | 0 <= i < |S| :: X[i] == RowSet(sh, S[i])
  {
    seq(|S|, i requires 0 <= i < |S| => RowSet(sh, S[i]))
  }

  /** No set occurs twice in `X`. */
  ghost predicate Unique(X: seq<set<int>>)
  {
    forall i, j | 0 <= i < j < |X| :: X[i] != X[j]
  }

  /** The row sets of two lists of answers, one after the other. */
  lemma RowSetsAppend(sh: Shape, S: seq<seq<int>>, S': seq<seq<int>>)
    ensures RowSets(sh, S + S') == RowSets(sh, S) + RowSets(sh, S')
  {
    var X, Y := RowSets(sh, S + S'), RowSets(sh, S) + RowSets(sh, S');
    forall i | 0 <= i < |X| ensures X[i] == Y[i] {
      if i >= |S| {
        assert (S + S')[i] == S'[i - |S|];
      }
    }
  }

  /** Adding `k` to sets that lack it keeps them different. */
  lemma AddUnique(Y: seq<set<int>>, Z: seq<set<int>>, k: int)
    requires |Z| == |Y| && Unique(Y)
    requires forall a | 0 <= a < |Y| :: Z[a] == {k} + Y[a] && k !in Y[a]
    ensures Unique(Z) && forall a | 0 <= a < |Z| :: k in Z[a]
  {
    forall i, j | 0 <= i < j < |Z| ensures Z[i] != Z[j] {
      assert Y[i] == Z[i] - {k} && Y[j] == Z[j] - {k};
    }
  }

  /** Sets without `k` followed by sets with `k`, each list without repeats,
      have no repeats. */
  lemma JoinUnique(X: seq<set<int>>, Y: seq<set<int>>, k: int)
    requires Unique(X) && Unique(Y)
    requires forall i | 0 <= i < |X| :: k !in X[i]
    requires forall i | 0 <= i < |Y| :: k in Y[i]
    ensures Unique(X + Y)
  {
    forall i, j | 0 <= i < j < |X + Y| ensures (X + Y)[i] != (X + Y)[j] {
      if j < |X| {
        assert (X + Y)[i] == X[i] && (X + Y)[j] == X[j];
      } else if i >= |X| {
        assert (X + Y)[i] == Y[i - |X|] && (X + Y)[j] == Y[j - |X|];
      } else {
        assert k in (X + Y)[j] && k !in (X + Y)[i];
      }
    }
  }

  /** The column a search on a well-formed matrix chooses: its rows, none twice. */
  lemma ChosenRows(g: Arena, sh: Shape, base: Shape)
    requires Sound(g, sh) && base.rows == sh.rows && base.rowOf == sh.rowOf && sh.active != []
    ensures Choose(sh) in sh.active
    ensures var c := Choose(sh); var col := Column(CoverShape(sh, g.C, c), c);
      RowsOfColumn(g, sh, c, col, base) && Distinct(col)
  {
    ChooseActive(g, sh);
    ChosenColumn(g, sh, base);
    CoveredDistinct(g, sh, Choose(sh));
  }

  /** Covering column `c` keeps its own ring, whose entries are distinct. */
  lemma CoveredDistinct(g: Arena, sh: Shape, c: int)
    requires Sound(g, sh) && c in sh.active
    ensures Distinct(Column(CoverShape(sh, g.C, c), c))
  {
    SoundCoveredColumn(g, sh, c);
    ColumnDistinct(g, sh, c);
  }

  /** The entries of a column ring are distinct. */
  lemma ColumnDistinct(g: Arena, sh: Shape, c: int)
    requires Sound(g, sh) && 1 <= c <= sh.m
    ensures c <= |sh.cols| && Distinct(sh.cols[c - 1])
  {
    assert Valid(g, sh);
    assert Columns(Col(g), g.C, g.size, sh.m, sh.n, sh.cols);
    assert ColumnOk(Col(g), g.C, g.size, sh.m, sh.n, sh.cols, c);
    DistinctTail(c, sh.cols[c - 1]);
  }

  /** No two answers of a search on a well-formed matrix choose the same rows. */
  lemma {:induction false} SolveDistinct(g: Arena, sh: Shape, base: Shape)
    requires Sound(g, sh) && base.rows == sh.rows && base.rowOf == sh.rowOf
    ensures Unique(RowSets(base, Solve(sh, g.C)))
    decreases |sh.active|, 1
  {
    if sh.active != [] {
      ChosenRows(g, sh, base);
      var c := Choose(sh);
      SolveStep(sh, g.C);
      BranchesDistinct(g, sh, c, Column(CoverShape(sh, g.C, c), c), base);
    }
  }

  /** No two answers of the search over the distinct rows `rs` of covered
      column `c` choose the same rows: those that start with different rows
      differ in the row of `c` they choose. */
  lemma {:induction false} BranchesDistinct(g: Arena, sh: Shape, c: int, rs: seq<int>, base: Shape)
    requires RowsOfColumn(g, sh, c, rs, base) && Distinct(rs)
    ensures Unique(RowSets(base, Branches(CoverShape(sh, g.C, c), g.C, rs)))
    decreases |sh.active|, 0, |rs|
  {
    if rs != [] {
      var sh1 := CoverShape(sh, g.C, c);
      var q := |rs| - 1;
      var init, r := rs[..q], rs[q];
      DistinctInit(rs);
      assert forall x | x in init :: x in rs;
      assert RowsOfColumn(g, sh, c, init, base);
      BranchesDistinct(g, sh, c, init, base);
      BranchesHeads(sh1, g.C, init);
      BranchesCover(g, sh, c, init, base);
      assert r in rs;
      assert Picked(g, sh, c, r);
      RowLeaves(g, sh, c, r, base);
      SoundRow(g, sh, c, r);
      var o := Others(sh1, r);
      var sh2 := CoverAll(sh1, g.C, o);
      var g2 := CoverArena(AfterCover(g, sh, c), sh1, o);
      SolveDistinct(g2, sh2, base);
      SolveCovers(g2, sh2, base);
      var P := Branches(sh1, g.C, init);
      var T := Solve(sh2, g.C);
      var E := Extend([r], T);
      assert Branches(sh1, g.C, rs) == P + E;
      InRowColumn(g, sh, r);
      var k := base.rowOf[r];
      forall a | 0 <= a < |T| ensures RowSets(base, E)[a] == {k} + RowSets(base, T)[a] && k !in RowSets(base, T)[a] {
        assert E[a] == [r] + T[a];
        RowSetCons(base, r, T[a]);
        assert T[a] in T;
        RowGone(base, g.C, T[a], Elems(sh2.active), r, c);
      }
      AddUnique(RowSets(base, T), RowSets(base, E), k);
      forall i | 0 <= i < |P| ensures k !in RowSets(base, P)[i] {
        assert P[i] in P;
        assert P[i][0] in init;
        OtherRowOut(g, sh, base, c, P[i], r);
      }
      RowSetsAppend(base, P, E);
      JoinUnique(RowSets(base, P), RowSets(base, E), k);
    }
  }
}
