/** The matrix invariant as the search sees it, kept whole. */
module SearchState {
  import opened Rings
  import opened Matrix
  import opened CoverFacts
  import opened Algorithm

  /** `g` holds the well-formed dancing-links matrix `sh`. Stated through a
      quantifier over the one arena `g`, so that the verifier opens `Valid`
      only where a proof asks for it with `assert Valid(g, sh)`: the search's
      contracts pass the invariant on as one fact, and the cost of each proof
      stays with the facts it uses. */
  ghost predicate Sound(g: Arena, sh: Shape)
  {
    forall w | w == g :: Valid(w, sh)
  }

  /** `o` lists a ring read from its member `i`, as the loops that walk it see it. */
  ghost predicate Walk(ch: Chain, i: int, o: seq<int>)
  {
    RingFrom(ch, i, o)
  }

  /** Where a walk around the ring `[i] + o` starts, in either direction. */
  lemma WalkFirst(ch: Chain, i: int, o: seq<int>)
    requires Walk(ch, i, o)
    ensures Has(ch, i) && ch.next[i] == if o == [] then i else o[0]
    ensures ch.prev[i] == if o == [] then i else o[|o| - 1]
    ensures i !in o
  {
    RingFirst(ch, i, o);
  }

  /** One step of a walk around the ring `[i] + o` from `o[q]`, in either direction. */
  lemma WalkNext(ch: Chain, i: int, o: seq<int>, q: int)
    requires Walk(ch, i, o) && 0 <= q < |o|
    ensures Has(ch, o[q]) && ch.next[o[q]] == if q + 1 < |o| then o[q + 1] else i
    ensures ch.prev[o[q]] == if q == 0 then i else o[q - 1]
  {
    RingNext(ch, i, o, q);
  }

  /** The rows `rs` are rows of active column `c` of the sound matrix `sh`, whose
      rows are those of `base`. */
  ghost predicate RowsOfColumn(g: Arena, sh: Shape, c: int, rs: seq<int>, base: Shape)
  {
    && Sound(g, sh) && base.rows == sh.rows && base.rowOf == sh.rowOf
    && c in sh.active && 1 <= c <= |sh.cols| && forall r | r in rs :: r in sh.cols[c - 1]
  }

  /** The state `h.cover()` leaves on the sound matrix `sh` (`g` itself otherwise). */
  ghost function AfterCover(g: Arena, sh: Shape, h: int): Arena
  {
    if Sound(g, sh) && h in sh.active then CoverResult(g, sh, h) else g
  }

  /** `r` is an entry of active column `c` of the sound matrix `sh`. */
  ghost predicate Picked(g: Arena, sh: Shape, c: int, r: int)
  {
    Sound(g, sh) && c in sh.active && 1 <= c <= |sh.cols| && r in sh.cols[c - 1]
  }

  /** `cover(h)` keeps a sound matrix sound and takes exactly `h` out of the header ring. */
  lemma SoundCover(g: Arena, sh: Shape, h: int)
    requires Sound(g, sh) && h in sh.active
    ensures AfterCover(g, sh, h) == CoverResult(g, sh, h)
    ensures Sound(AfterCover(g, sh, h), CoverShape(sh, g.C, h)) && AfterCover(g, sh, h).C == g.C
    ensures forall x :: x in CoverShape(sh, g.C, h).active <==> x in sh.active && x != h
    ensures |CoverShape(sh, g.C, h).active| == |sh.active| - 1
    ensures Elems(CoverShape(sh, g.C, h).active) == Elems(sh.active) - {h}
  {
    CoverKeepsValid(g, sh, h);
  }

  /** An entry `r` of active column `c`, and the other entries of its row. */
  lemma SoundRow(g: Arena, sh: Shape, c: int, r: int)
    requires Picked(g, sh, c, r)
    ensures sh.m < r < sh.n && InRow(sh, r) && 0 <= r < |g.C| && g.C[r] == c
    ensures Distinct(Others(sh, r)) && r !in Others(sh, r)
    ensures forall z :: z in Others(sh, r) <==> z in sh.rows[sh.rowOf[r]] && z != r
    ensures forall z | z in Others(sh, r) ::
      && 0 <= z < |g.C| && g.C[z] in sh.active && g.C[z] != c && InRow(sh, z) && sh.rowOf[z] == sh.rowOf[r]
  {
    OthersInColumns(g, sh, c, r);
    assert ColumnOk(Col(g), g.C, g.size, sh.m, sh.n, sh.cols, c);
  }

  /** Two entries of one row in one column are the same entry. */
  lemma SoundSameColumn(g: Arena, sh: Shape, a: int, b: int)
    requires Sound(g, sh) && InRow(sh, a) && InRow(sh, b) && sh.rowOf[a] == sh.rowOf[b]
    requires 0 <= a < |g.C| && 0 <= b < |g.C| && g.C[a] == g.C[b]
    ensures a == b
  {
    SameRowSameColumn(g, sh, a, b);
  }

  /** The row ring of entry `x`, read from `x`. */
  lemma SoundOthers(g: Arena, sh: Shape, x: int)
    requires Sound(g, sh) && sh.m < x < sh.n
    ensures Ring(Row(g), [x] + Others(sh, x))
  {
    OthersFacts(g, sh, x);
    assert RowFrom(sh, x) == [x] + Others(sh, x);
  }

  /** The column a search on a sound matrix with columns left covers first, and its rows. */
  lemma ChosenColumn(g: Arena, sh: Shape, base: Shape)
    requires Sound(g, sh) && base.rows == sh.rows && base.rowOf == sh.rowOf && Choose(sh) in sh.active
    ensures RowsOfColumn(g, sh, Choose(sh), Column(CoverShape(sh, g.C, Choose(sh)), Choose(sh)), base)
  {
    SoundCoveredColumn(g, sh, Choose(sh));
  }

  /** After `c.cover()` the column ring of `c` still lists its entries, which are
      1-entries of column `c`. */
  lemma SoundCoveredColumn(g: Arena, sh: Shape, c: int)
    requires Sound(g, sh) && c in sh.active
    ensures 1 <= c <= sh.m == |sh.cols|
    ensures CoverShape(sh, g.C, c).cols[c - 1] == sh.cols[c - 1]
    ensures Ring(Col(AfterCover(g, sh, c)), [c] + sh.cols[c - 1])
    ensures forall x | x in sh.cols[c - 1] :: sh.m < x < sh.n && x < |g.C| && g.C[x] == c
  {
    CoverKeepsValid(g, sh, c);
    CoverKeepsColumns(g, sh, c);
    var sh1 := CoverShape(sh, g.C, c);
    var g1 := CoverResult(g, sh, c);
    assert ColumnOk(Col(g1), g1.C, g1.size, sh1.m, sh1.n, sh1.cols, c);
    assert ColumnOk(Col(g), g.C, g.size, sh.m, sh.n, sh.cols, c);
  }
}

/** What `DLX.search` relies on about the matrix between its covers: which column
    the heuristic picks, the states the row loops go through, and why each answer
    it reports is an exact cover. */
module SearchFacts {
  import opened Rings
  import opened Matrix
  import opened CoverFacts
  import opened Algorithm
  import opened SearchState

  // ---------------------------------------------------------------------------
  // The header ring
  // ---------------------------------------------------------------------------

  /** `header.R == header` exactly when no column is left. */
  lemma EmptyHeaderRing(g: Arena, sh: Shape)
    requires Sound(g, sh)
    ensures Has(Row(g), 0) && (g.R[0] == 0 <==> sh.active == [])
    ensures Walk(Row(g), 0, sh.active)
  {
    assert Valid(g, sh);
    RingFirst(Row(g), 0, sh.active);
  }

  /** On a well-formed matrix with columns left, the counts the heuristic reads are
      the column lengths, and it returns an active column. */
  lemma ChooseActive(g: Arena, sh: Shape)
    requires Sound(g, sh) && sh.active != []
    ensures Sizes(sh.active, g.size) == ActiveSizes(sh)
    ensures Choose(sh) in sh.active
  {
    assert Valid(g, sh);
    var s := ActiveSizes(sh);
    forall k | 0 <= k < |sh.active|
      ensures 0 <= sh.active[k] < |g.size| && g.size[sh.active[k]] == s[k] < MaxInt
    {
      var h := sh.active[k];
      assert h in sh.active;
      assert ColumnOk(Col(g), g.C, g.size, sh.m, sh.n, sh.cols, h);
    }
    HeuristicPicksFirstSmallest(sh.active, s);
    assert s[0] < MaxInt;
  }

  // ---------------------------------------------------------------------------
  // Covering the columns of a row, one after another
  // ---------------------------------------------------------------------------

  /** The state after `j.C.cover()` for each `j` of `js`, first to last, starting
      from `g` whose rings are `sh`. */
  ghost function CoverArena(g: Arena, sh: Shape, js: seq<int>): Arena
    decreases |js|
  {
    if js == [] then g
    else
      var init := js[..|js| - 1];
      var gi := CoverArena(g, sh, init);
      var si := CoverAll(sh, g.C, init);
      var h := ColumnOf(g.C, js[|js| - 1]);
      AfterCover(gi, si, h)
  }

  /** The entries `js` lie in active columns, no two in the same column. */
  ghost predicate ColumnsFree(sh: Shape, C: seq<int>, js: seq<int>)
  {
    && (forall j | j in js :: 0 <= j < |C| && C[j] in sh.active)
    && (forall a, b | 0 <= a < b < |js| :: ColumnOf(C, js[a]) != ColumnOf(C, js[b]))
  }

  lemma ColumnsFreePrefix(sh: Shape, C: seq<int>, js: seq<int>, p: int)
    requires ColumnsFree(sh, C, js) && 0 <= p <= |js|
    ensures ColumnsFree(sh, C, js[..p])
  {
    assert forall j | j in js[..p] :: j in js;
  }

  /** The columns of the entries `js`. */
  ghost function Heads(C: seq<int>, js: seq<int>): set<int>
  {
    set j | j in js :: ColumnOf(C, j)
  }

  /** The columns of entries in live columns are live. */
  lemma HeadsLive(sh: Shape, C: seq<int>, js: seq<int>)
    requires ColumnsFree(sh, C, js)
    ensures Heads(C, js) <= Elems(sh.active)
  {
    forall h | h in Heads(C, js) ensures h in sh.active {
      var j :| j in js && ColumnOf(C, j) == h;
    }
  }

  /** Covering the columns of `js` in turn keeps the matrix well formed and takes
      exactly those columns out of the header ring. */
  lemma {:induction false} CoverArenaValid(g: Arena, sh: Shape, js: seq<int>)
    requires Sound(g, sh) && ColumnsFree(sh, g.C, js)
    ensures Sound(CoverArena(g, sh, js), CoverAll(sh, g.C, js)) && CoverArena(g, sh, js).C == g.C
    ensures Elems(CoverAll(sh, g.C, js).active) == Elems(sh.active) - Heads(g.C, js)
    decreases |js|
  {
    if js != [] {
      var init := js[..|js| - 1];
      var j := js[|js| - 1];
      ColumnsFreePrefix(sh, g.C, js, |js| - 1);
      CoverArenaValid(g, sh, init);
      var gi := CoverArena(g, sh, init);
      var si := CoverAll(sh, g.C, init);
      var h := ColumnOf(g.C, j);
      NewHead(sh, g.C, js);
      assert h in si.active by {
        assert h in Elems(si.active);
      }
      SoundCover(gi, si, h);
      assert CoverAll(sh, g.C, js) == CoverShape(si, g.C, h);
    }
  }

  /** The last entry of `js` brings a column none of the others has. */
  lemma NewHead(sh: Shape, C: seq<int>, js: seq<int>)
    requires ColumnsFree(sh, C, js) && js != []
    ensures ColumnOf(C, js[|js| - 1]) in sh.active
    ensures ColumnOf(C, js[|js| - 1]) !in Heads(C, js[..|js| - 1])
    ensures Heads(C, js) == Heads(C, js[..|js| - 1]) + {ColumnOf(C, js[|js| - 1])}
  {
    var init := js[..|js| - 1];
    var j := js[|js| - 1];
    assert j in js;
    assert js == init + [j];
  }

  /** Everything about step `q` of covering the columns of `js` from `g`. */
  ghost predicate StageOk(g: Arena, sh: Shape, js: seq<int>, q: int)
  {
    && 0 <= q < |js| && 0 <= js[q] < |g.C|
    && var gq := CoverArena(g, sh, js[..q]);
    && var sq := CoverAll(sh, g.C, js[..q]);
    && var h := ColumnOf(g.C, js[q]);
    && Sound(gq, sq) && gq.C == g.C && h in sq.active
    && CoverArena(g, sh, js[..q + 1]) == AfterCover(gq, sq, h)
  }

  /** Step `q` of covering the columns of `js` covers a live column of a
      well-formed matrix. */
  lemma StageAt(g: Arena, sh: Shape, js: seq<int>, q: int)
    requires Sound(g, sh) && ColumnsFree(sh, g.C, js) && 0 <= q < |js|
    ensures StageOk(g, sh, js, q)
  {
    var pre := js[..q + 1];
    assert js[q] in js;
    ColumnsFreePrefix(sh, g.C, js, q + 1);
    assert pre[..|pre| - 1] == js[..q] && pre[|pre| - 1] == js[q];
    NewHead(sh, g.C, pre);
    ColumnsFreePrefix(sh, g.C, js, q);
    CoverArenaValid(g, sh, js[..q]);
    var sq := CoverAll(sh, g.C, js[..q]);
    var h := ColumnOf(g.C, js[q]);
    assert h in sq.active by {
      assert h in Elems(sq.active);
    }
  }

  /** Two shapes with the same rows walk the same row from an entry. */
  lemma OthersSame(sh: Shape, sh': Shape, x: int)
    requires sh'.rows == sh.rows && sh'.rowOf == sh.rowOf
    ensures RowFrom(sh', x) == RowFrom(sh, x) && Others(sh', x) == Others(sh, x)
  {
  }

  /** The row of `r` is intact after covering the columns of any prefix of its
      other entries `js`. */
  lemma RowAtStage(g: Arena, sh: Shape, r: int, js: seq<int>, q: int)
    requires Sound(g, sh) && sh.m < r < sh.n && js == Others(sh, r)
    requires ColumnsFree(sh, g.C, js) && 0 <= q <= |js|
    ensures Walk(Row(CoverArena(g, sh, js[..q])), r, js)
  {
    ColumnsFreePrefix(sh, g.C, js, q);
    CoverArenaValid(g, sh, js[..q]);
    var gq := CoverArena(g, sh, js[..q]);
    var sq := CoverAll(sh, g.C, js[..q]);
    OthersSame(sh, sq, r);
    SoundOthers(gq, sq, r);
  }

  /** Step `q` of the loop covering the columns of the other entries `o` of row
      `r`, from the state `gq` before `o[q]`'s column is covered to `g'` after it:
      the column is live, covering it leads from `gq` to `g'`, and the walk goes
      on from `o[q]` to its right neighbour. */
  lemma RowCoverStep(g: Arena, sh: Shape, r: int, o: seq<int>, q: int)
    requires RowReady(g, sh, r) && o == Others(sh, r) && 0 <= q < |o|
    ensures var gq := CoverArena(g, sh, o[..q]);
      var g' := CoverArena(g, sh, o[..q + 1]);
      && gq.C == g.C && g'.C == g.C && 0 <= o[q] < |g.C|
      && Coverable(gq, CoverAll(sh, g.C, o[..q]), g.C[o[q]])
      && g' == CoverResult(gq, CoverAll(sh, g.C, o[..q]), g.C[o[q]])
      && Has(Row(g'), o[q]) && Row(g').next[o[q]] == (if q + 1 < |o| then o[q + 1] else r)
  {
    StageAt(g, sh, o, q);
    var gq := CoverArena(g, sh, o[..q]);
    var sq := CoverAll(sh, g.C, o[..q]);
    SoundCover(gq, sq, g.C[o[q]]);
    RowAtStage(g, sh, r, o, q + 1);
    WalkNext(Row(CoverArena(g, sh, o[..q + 1])), r, o, q);
    assert Valid(gq, sq);
  }

  /** What the loop covering the columns of row `r`'s other entries starts from. */
  ghost predicate RowReady(g: Arena, sh: Shape, r: int)
  {
    Sound(g, sh) && sh.m < r < sh.n && ColumnsFree(sh, g.C, Others(sh, r))
  }

  // ---------------------------------------------------------------------------
  // Choosing a row of the covered column
  // ---------------------------------------------------------------------------

  /** Once column `c` is covered, the other entries of a row `r` of `c` lie in
      live columns, one per column. */
  lemma PickRow(g: Arena, sh: Shape, c: int, r: int)
    requires Picked(g, sh, c, r)
    ensures sh.m < r < sh.n && 0 <= r < |g.C| && g.C[r] == c
    ensures ColumnsFree(CoverShape(sh, g.C, c), g.C, Others(sh, r))
    ensures Others(CoverShape(sh, g.C, c), r) == Others(sh, r)
  {
    var sh1 := CoverShape(sh, g.C, c);
    var o := Others(sh, r);
    SoundRow(g, sh, c, r);
    SoundCover(g, sh, c);
    forall a, b | 0 <= a < b < |o| ensures ColumnOf(g.C, o[a]) != ColumnOf(g.C, o[b]) {
      assert o[a] in o && o[b] in o;
      if g.C[o[a]] == g.C[o[b]] {
        SoundSameColumn(g, sh, o[a], o[b]);
      }
    }
    OthersSame(sh, sh1, r);
  }

  /** Once column `c` is covered, row `r` of `c` is ready to have its columns covered. */
  lemma PickedReady(g: Arena, sh: Shape, c: int, r: int)
    requires Picked(g, sh, c, r)
    ensures RowReady(AfterCover(g, sh, c), CoverShape(sh, g.C, c), r) && AfterCover(g, sh, c).C == g.C
    ensures sh.m < r < sh.n && 0 <= r < |g.C| && g.C[r] == c
  {
    SoundCover(g, sh, c);
    PickRow(g, sh, c, r);
  }

  /** The columns row `r` of column `c` covers: `c` and those of its other entries. */
  lemma RowColumnsOf(g: Arena, sh: Shape, c: int, r: int)
    requires Picked(g, sh, c, r)
    ensures RowColumns(sh, g.C, r) == {c} + Heads(g.C, Others(sh, r))
  {
    var o := Others(sh, r);
    SoundRow(g, sh, c, r);
    var row := sh.rows[sh.rowOf[r]];
    assert r in row;
    forall h ensures h in RowColumns(sh, g.C, r) <==> h in {c} + Heads(g.C, o) {
      if h in RowColumns(sh, g.C, r) {
        var y :| y in row && 0 <= y < |g.C| && g.C[y] == h;
        if y != r { assert y in o; }
      }
      if h in Heads(g.C, o) {
        var z :| z in o && ColumnOf(g.C, z) == h;
        assert z in row;
      }
    }
  }

  // ---------------------------------------------------------------------------
  // Every answer is an exact cover
  // ---------------------------------------------------------------------------

  /** The rows a search on a well-formed matrix `sh` reports cover each of its
      active columns exactly once and no other column. `base` is any shape with
      the same rows, such as the matrix the search started from. */
  lemma {:induction false} SolveCovers(g: Arena, sh: Shape, base: Shape)
    requires Sound(g, sh) && base.rows == sh.rows && base.rowOf == sh.rowOf
    ensures forall A | A in Solve(sh, g.C) :: ExactCover(base, g.C, A, Elems(sh.active))
    decreases |sh.active|, 1
  {
    if sh.active == [] {
      assert Solve(sh, g.C) == [[]];
    } else {
      ChooseActive(g, sh);
      var c := Choose(sh);
      ChosenColumn(g, sh, base);
      SolveStep(sh, g.C);
      BranchesCover(g, sh, c, Column(CoverShape(sh, g.C, c), c), base);
    }
  }

  /** The answers that start with a row of `rs` once `c` is covered, where every
      row of `rs` is in column `c`, are exact covers of the active columns. */
  lemma {:induction false} BranchesCover(g: Arena, sh: Shape, c: int, rs: seq<int>, base: Shape)
    requires RowsOfColumn(g, sh, c, rs, base)
    ensures forall A | A in Branches(CoverShape(sh, g.C, c), g.C, rs) :: ExactCover(base, g.C, A, Elems(sh.active))
    decreases |sh.active|, 0, |rs|
  {
    if rs != [] {
      var sh1 := CoverShape(sh, g.C, c);
      var init := rs[..|rs| - 1];
      var r := rs[|rs| - 1];
      assert forall x | x in init :: x in rs;
      assert RowsOfColumn(g, sh, c, init, base);
      BranchesCover(g, sh, c, init, base);
      assert r in rs;
      assert Picked(g, sh, c, r);
      RowCovers(g, sh, c, r, base);
      var sols := Solve(CoverAll(sh1, g.C, Others(sh1, r)), g.C);
      forall A | A in Extend([r], sols) ensures ExactCover(base, g.C, A, Elems(sh.active)) {
        var k :| 0 <= k < |sols| && A == [r] + sols[k];
        assert sols[k] in sols;
      }
    }
  }

  /** Choosing row `r` of column `c` and continuing yields exact covers. */
  lemma RowCovers(g: Arena, sh: Shape, c: int, r: int, base: Shape)
    requires Picked(g, sh, c, r) && base.rows == sh.rows && base.rowOf == sh.rowOf
    ensures var sh1 := CoverShape(sh, g.C, c);
      forall A | A in Solve(CoverAll(sh1, g.C, Others(sh1, r)), g.C) ::
        ExactCover(base, g.C, [r] + A, Elems(sh.active))
    decreases |sh.active|, 0, 0
  {
    var sh1 := CoverShape(sh, g.C, c);
    var g1 := AfterCover(g, sh, c);
    RowLeaves(g, sh, c, r, base);
    var o := Others(sh1, r);
    var sh2 := CoverAll(sh1, g.C, o);
    var rc := RowColumns(base, g.C, r);
    assert rc <= Elems(sh.active) && Elems(sh2.active) == Elems(sh.active) - rc;
    PickedInRow(g, sh, c, r, base);
    SolveCovers(CoverArena(g1, sh1, o), sh2, base);
    forall A | A in Solve(sh2, g.C) ensures ExactCover(base, g.C, [r] + A, Elems(sh.active)) {
      assert ExactCover(base, g.C, A, Elems(sh2.active));
      ExactCoverCons(base, g.C, r, A, Elems(sh.active), Elems(sh2.active));
    }
  }

  /** A row picked from a column is a 1-entry of the matrix. */
  lemma PickedInRow(g: Arena, sh: Shape, c: int, r: int, base: Shape)
    requires Picked(g, sh, c, r) && base.rows == sh.rows && base.rowOf == sh.rowOf
    ensures InRow(base, r)
  {
    assert Valid(g, sh);
    assert ColumnOk(Col(g), g.C, g.size, sh.m, sh.n, sh.cols, c);
    assert sh.m < r < sh.n;
    assert InRow(sh, r);
  }

  /** Once row `r` of column `c` is chosen and its columns covered, the matrix is
      sound and smaller, and its live columns are the old ones less those of `r`. */
  lemma RowLeaves(g: Arena, sh: Shape, c: int, r: int, base: Shape)
    requires Picked(g, sh, c, r) && base.rows == sh.rows && base.rowOf == sh.rowOf
    ensures var sh1 := CoverShape(sh, g.C, c);
      var o := Others(sh1, r);
      var sh2 := CoverAll(sh1, g.C, o);
      && Sound(CoverArena(AfterCover(g, sh, c), sh1, o), sh2) && CoverArena(AfterCover(g, sh, c), sh1, o).C == g.C
      && sh2.rows == sh.rows && sh2.rowOf == sh.rowOf && |sh2.active| < |sh.active|
    ensures var sh1 := CoverShape(sh, g.C, c);
      var rc := RowColumns(base, g.C, r);
      && rc <= Elems(sh.active) && Elems(CoverAll(sh1, g.C, Others(sh1, r)).active) == Elems(sh.active) - rc
  {
    var sh1 := CoverShape(sh, g.C, c);
    var o := Others(sh, r);
    SoundCover(g, sh, c);
    PickRow(g, sh, c, r);
    CoverArenaValid(AfterCover(g, sh, c), sh1, o);
    RowColumnsOf(g, sh, c, r);
    HeadsLive(sh1, g.C, o);
    assert RowColumns(base, g.C, r) == RowColumns(sh, g.C, r);
    PeelColumns(Elems(sh.active), Elems(sh1.active), Elems(CoverAll(sh1, g.C, o).active), c, Heads(g.C, o));
  }

  /** Taking out column `c`, then the columns `hs`, takes out `{c} + hs`. */
  lemma PeelColumns(a: set<int>, a1: set<int>, a2: set<int>, c: int, hs: set<int>)
    requires c in a && a1 == a - {c} && hs <= a1 && a2 == a1 - hs
    ensures {c} + hs <= a && a2 == a - ({c} + hs)
  {
  }
}

/** What the row loop of `search` over a covered column relies on, kept whole
    at each step of the loop. */
module SearchLoops {
  import opened Rings
  import opened Matrix
  import opened Algorithm
  import opened SearchState
  import opened SearchFacts

  /** `r` is an entry of column `c` of the matrix `sh1` held by `g1`, ready to
      have the columns of the other entries of its row covered. */
  ghost predicate RowOfColumn(g1: Arena, sh1: Shape, c: int, r: int)
  {
    RowReady(g1, sh1, r) && 0 <= r < |g1.C| && g1.C[r] == c
  }

  /** What the row loop of `search` over the covered column `c` relies on: `g1`
      holds the well-formed matrix `sh1`, the ring of `c` lists `col` from top to
      bottom, and each row of `col` is an entry of `c` ready to have its other
      columns covered. */
  ghost predicate ColumnLoop(g1: Arena, sh1: Shape, c: int, col: seq<int>)
  {
    && Sound(g1, sh1) && Walk(Col(g1), c, col)
    && forall r | r in col :: RowOfColumn(g1, sh1, c, r)
  }

  /** Once `search` covers the column `c` it chose, the row loop over `c` can start. */
  lemma CoveredColumn(g: Arena, sh: Shape, c: int)
    requires Sound(g, sh) && c in sh.active
    ensures var sh1 := CoverShape(sh, g.C, c);
      ColumnLoop(AfterCover(g, sh, c), sh1, c, Column(sh1, c))
  {
    var sh1 := CoverShape(sh, g.C, c);
    var g1 := AfterCover(g, sh, c);
    SoundCover(g, sh, c);
    SoundCoveredColumn(g, sh, c);
    forall r | r in Column(sh1, c) ensures RowOfColumn(g1, sh1, c, r) {
      assert Picked(g, sh, c, r);
      PickedReady(g, sh, c, r);
    }
  }
}
