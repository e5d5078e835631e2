/** Algorithm X on the ghost description of the matrix: the column that
    `DLX.selectColumnNodeHeuristic` picks, the matrix left after a row is
    chosen, and the answers `DLX.search` reports, in the order it reports them. */
module Algorithm {
  import opened Rings
  import opened Matrix

  // ---------------------------------------------------------------------------
  // selectColumnNodeHeuristic
  // ---------------------------------------------------------------------------

  /** The position of the first smallest of `s[0]`, ..., `s[t - 1]`. */
  function ArgMinUpTo(s: seq<int>, t: int): (k: int)
    requires 0 < t <= |s|
    ensures 0 <= k < t
    decreases t
  {
    if t == 1 then 0
    else
      var k := ArgMinUpTo(s, t - 1);
      if s[t - 1] < s[k] then t - 1 else k
  }

  /** The counts `size[h]` of the headers `hs`, in order (0 for a header out of range). */
  function Sizes(hs: seq<int>, size: seq<int>): (s: seq<int>)
    ensures |s| == |hs|
    ensures forall k | 0 <= k < |hs| && 0 <= hs[k] < |size| :: s[k] == size[hs[k]]
  {
    seq(|hs|, k requires 0 <= k < |hs| => if 0 <= hs[k] < |size| then size[hs[k]] else 0)
  }

  /** What `selectColumnNodeHeuristic` returns once it has looked at the first `t`
      headers `hs` of the header ring, whose counts are `s`: `-1` (`null`) while no
      count has been below `Integer.MAX_VALUE`. */
  function HeuristicUpTo(hs: seq<int>, s: seq<int>, t: int): int
    requires |s| == |hs| && 0 <= t <= |hs|
  {
    if t == 0 then -1
    else
      var k := ArgMinUpTo(s, t);
      if s[k] < MaxInt then hs[k] else -1
  }

  /** What `selectColumnNodeHeuristic` returns on the header ring `hs` with counts `s`. */
  function Heuristic(hs: seq<int>, s: seq<int>): int
    requires |s| == |hs|
  {
    HeuristicUpTo(hs, s, |hs|)
  }

  /** One more count: it becomes the first smallest only when strictly smaller. */
  lemma ArgMinNext(s: seq<int>, t: int)
    requires 0 < t < |s|
    ensures ArgMinUpTo(s, t + 1) == if s[t] < s[ArgMinUpTo(s, t)] then t else ArgMinUpTo(s, t)
  {
  }

  /** `ArgMinUpTo` is the first position of a smallest count. */
  lemma {:induction false} ArgMinIsFirstMin(s: seq<int>, t: int)
    requires 0 < t <= |s|
    ensures forall i | 0 <= i < t :: s[ArgMinUpTo(s, t)] <= s[i]
    ensures forall i | 0 <= i < ArgMinUpTo(s, t) :: s[ArgMinUpTo(s, t)] < s[i]
    decreases t
  {
    if t > 1 {
      ArgMinIsFirstMin(s, t - 1);
    }
  }

  /** The header picked is one of the ring's, with the fewest entries, and every
      header before it in the ring has strictly more; `null` comes back only when
      the ring is empty or every count is at least `Integer.MAX_VALUE`. */
  lemma HeuristicPicksFirstSmallest(hs: seq<int>, s: seq<int>)
    requires |s| == |hs| && forall k | 0 <= k < |hs| :: 0 <= hs[k]
    ensures var ret := Heuristic(hs, s);
      && (ret == -1 <==> forall k | 0 <= k < |hs| :: s[k] >= MaxInt)
      && (ret != -1 ==> exists k | 0 <= k < |hs| :: && hs[k] == ret && s[k] < MaxInt
                                                   && (forall i | 0 <= i < |hs| :: s[k] <= s[i])
                                                   && (forall i | 0 <= i < k :: s[k] < s[i]))
  {
    if hs != [] {
      ArgMinIsFirstMin(s, |hs|);
      var k := ArgMinUpTo(s, |hs|);
      if Heuristic(hs, s) == -1 {
        assert s[k] >= MaxInt;
      } else {
        assert hs[k] == Heuristic(hs, s);
      }
    }
  }

  // ---------------------------------------------------------------------------
  // search
  // ---------------------------------------------------------------------------

  /** The count of column `h` that the matrix `sh` records. */
  function ColSize(sh: Shape, h: int): int
  {
    if 1 <= h <= |sh.cols| then |sh.cols[h - 1]| else 0
  }

  /** The counts of the active columns, in header-ring order. */
  function ActiveSizes(sh: Shape): (s: seq<int>)
    ensures |s| == |sh.active|
  {
    seq(|sh.active|, k requires 0 <= k < |sh.active| => ColSize(sh, sh.active[k]))
  }

  /** The column `search` covers first on the matrix `sh`. */
  function Choose(sh: Shape): int
  {
    Heuristic(sh.active, ActiveSizes(sh))
  }

  /** The entries of column `h`, top to bottom. */
  function Column(sh: Shape, h: int): seq<int>
  {
    if 1 <= h <= |sh.cols| then sh.cols[h - 1] else []
  }

  /** The column header of node `j`. */
  function ColumnOf(C: seq<int>, j: int): int
  {
    if 0 <= j < |C| then C[j] else 0
  }

  /** The matrix after `j.C.cover()` for each `j` of `js`, first to last. */
  ghost function CoverAll(sh: Shape, C: seq<int>, js: seq<int>): (r: Shape)
    ensures |r.active| <= |sh.active|
    ensures r.m == sh.m && r.n == sh.n && r.rows == sh.rows && r.rowOf == sh.rowOf
    decreases |js|
  {
    if js == [] then sh
    else CoverShape(CoverAll(sh, C, js[..|js| - 1]), C, ColumnOf(C, js[|js| - 1]))
  }

  /** `prefix + A` for each answer `A` of `As`. */
  function Extend(prefix: seq<int>, As: seq<seq<int>>): seq<seq<int>>
  {
    seq(|As|, k requires 0 <= k < |As| => prefix + As[k])
  }

  /** The answers `search` reports on the matrix `sh` whose nodes have column
      headers `C`, in order, each as the list of row entries it chose: one empty
      answer when no column is left; otherwise the answers of each row of the
      chosen column, top to bottom. */
  ghost function Solve(sh: Shape, C: seq<int>): seq<seq<int>>
    decreases |sh.active|, 1, 0
  {
    if sh.active == [] then [[]]
    else
      var c := Choose(sh);
      if c !in sh.active then []
      else
        var sh1 := CoverShape(sh, C, c);
        Branches(sh1, C, Column(sh1, c))
  }

  /** The answers that start with the rows of `rs`, one after another, once their
      column is covered in `sh`: row `r` covers the columns of the other entries
      of its row and continues the search. */
  ghost function Branches(sh: Shape, C: seq<int>, rs: seq<int>): seq<seq<int>>
    decreases |sh.active| + 1, 0, |rs|
  {
    if rs == [] then []
    else
      var r := rs[|rs| - 1];
      Branches(sh, C, rs[..|rs| - 1]) + Extend([r], Solve(CoverAll(sh, C, Others(sh, r)), C))
  }

  /** A search on a matrix with columns left tries the rows of the column it chooses. */
  lemma SolveStep(sh: Shape, C: seq<int>)
    requires sh.active != [] && Choose(sh) in sh.active
    ensures Solve(sh, C) == Branches(CoverShape(sh, C, Choose(sh)), C, Column(CoverShape(sh, C, Choose(sh)), Choose(sh)))
  {
  }

  /** A search over the rows `rs + [r]` reports the answers over `rs`, then those of `r`. */
  lemma BranchesSnoc(sh: Shape, C: seq<int>, rs: seq<int>, r: int)
    ensures Branches(sh, C, rs + [r]) ==
      Branches(sh, C, rs) + Extend([r], Solve(CoverAll(sh, C, Others(sh, r)), C))
  {
    assert (rs + [r])[..|rs + [r]| - 1] == rs;
  }

  /** A search over the first `p + 1` rows of `rs`. */
  lemma BranchesStep(sh: Shape, C: seq<int>, rs: seq<int>, p: int)
    requires 0 <= p < |rs|
    ensures Branches(sh, C, rs[..p + 1]) ==
      Branches(sh, C, rs[..p]) + Extend([rs[p]], Solve(CoverAll(sh, C, Others(sh, rs[p])), C))
  {
    assert rs[..p + 1] == rs[..p] + [rs[p]];
    BranchesSnoc(sh, C, rs[..p], rs[p]);
  }

  /** Answers after the empty prefix are the answers themselves. */
  lemma ExtendEmpty(As: seq<seq<int>>)
    ensures Extend([], As) == As
  {
    assert forall k | 0 <= k < |As| :: [] + As[k] == As[k];
  }

  /** The matrix of the 1 by 1 grid `[[1]]` (header 1, entry 2) has columns left,
      and its search reports the one answer `[2]`. */
  lemma OneEntrySolve(C: seq<int>)
    ensures var sh := Shape(1, 3, [1], [[2]], [[2]], [0, 0, 0]);
      sh.active != [] && Solve(sh, C) == [[2]]
  {
    var sh := Shape(1, 3, [1], [[2]], [[2]], [0, 0, 0]);
    assert ActiveSizes(sh) == [1];
    assert ArgMinUpTo([1], 1) == 0;
    assert Choose(sh) == 1;
    assert RowFrom(sh, 2) == [2];
    assert Others(sh, 2) == [];
    assert CoverList(sh, 1) == [];
    var sh1 := CoverShape(sh, C, 1);
    assert sh1 == Shape(1, 3, [], [[2]], [[2]], [0, 0, 0]);
    assert Column(sh1, 1) == [2];
    assert Others(sh1, 2) == [];
    assert CoverAll(sh1, C, []) == sh1;
    assert Solve(sh1, C) == [[]];
    assert [2] + [] == [2];
    assert Branches(sh1, C, [2]) == [] + Extend([2], [[]]);
  }

  /** A search on a matrix with no column left reports the current answer once. */
  lemma SolveDone(sh: Shape, C: seq<int>, prefix: seq<int>)
    requires sh.active == []
    ensures Extend(prefix, Solve(sh, C)) == [prefix] && |Solve(sh, C)| == 1
  {
    assert prefix + [] == prefix;
  }

  /** If `f1` holds the answers over the rows of the column `search` chooses on
      `sh`, after `f0`, it holds the answers of the whole search on `sh`. */
  lemma ReportAll(f0: seq<seq<int>>, f1: seq<seq<int>>, prefix: seq<int>, sh: Shape, C: seq<int>)
    requires sh.active != [] && Choose(sh) in sh.active
    requires var sh1 := CoverShape(sh, C, Choose(sh));
      f1 == f0 + Extend(prefix, Branches(sh1, C, Column(sh1, Choose(sh))))
    ensures f1 == f0 + Extend(prefix, Solve(sh, C))
    ensures var sh1 := CoverShape(sh, C, Choose(sh));
      |Solve(sh, C)| == |Branches(sh1, C, Column(sh1, Choose(sh)))|
  {
    SolveStep(sh, C);
  }

  /** The answers over the first `p + 1` rows of `rs`, each after `prefix`: those
      over the first `p` rows, then those that start with `prefix + [rs[p]]`. */
  lemma ReportStep(prefix: seq<int>, sh: Shape, C: seq<int>, rs: seq<int>, p: int)
    requires 0 <= p < |rs|
    ensures var tail := Solve(CoverAll(sh, C, Others(sh, rs[p])), C);
      && Extend(prefix, Branches(sh, C, rs[..p + 1])) == Extend(prefix, Branches(sh, C, rs[..p])) + Extend(prefix + [rs[p]], tail)
      && |Branches(sh, C, rs[..p + 1])| == |Branches(sh, C, rs[..p])| + |tail|
  {
    BranchesStep(sh, C, rs, p);
    ExtendAppend(prefix, Branches(sh, C, rs[..p]), rs[p], Solve(CoverAll(sh, C, Others(sh, rs[p])), C));
  }

  /** The row loop of `search` one row further on: if `f1` holds the answers
      over the first `p` rows of `rs` after `f0`, and row `rs[p]` then adds its
      own answers, the result holds the answers over the first `p + 1` rows. */
  lemma ReportNext(f0: seq<seq<int>>, f1: seq<seq<int>>, f2: seq<seq<int>>,
                   prefix: seq<int>, sh: Shape, C: seq<int>, rs: seq<int>, p: int)
    requires 0 <= p < |rs|
    requires f1 == f0 + Extend(prefix, Branches(sh, C, rs[..p]))
    requires f2 == f1 + Extend(prefix + [rs[p]], Solve(CoverAll(sh, C, Others(sh, rs[p])), C))
    ensures f2 == f0 + Extend(prefix, Branches(sh, C, rs[..p + 1]))
    ensures |Branches(sh, C, rs[..p + 1])| == |Branches(sh, C, rs[..p])| + |Solve(CoverAll(sh, C, Others(sh, rs[p])), C)|
  {
    var tail := Solve(CoverAll(sh, C, Others(sh, rs[p])), C);
    ReportStep(prefix, sh, C, rs, p);
    AppendAssoc(f0, Extend(prefix, Branches(sh, C, rs[..p])), Extend(prefix + [rs[p]], tail));
  }

  /** Concatenation is associative. */
  lemma AppendAssoc<T>(a: seq<T>, b: seq<T>, c: seq<T>)
    ensures (a + b) + c == a + (b + c)
  {
  }

  /** Prefixing the answers of two searches one after the other. */
  lemma ExtendAppend(prefix: seq<int>, As: seq<seq<int>>, r: int, Bs: seq<seq<int>>)
    ensures Extend(prefix, As + Extend([r], Bs)) == Extend(prefix, As) + Extend(prefix + [r], Bs)
  {
    var lhs := Extend(prefix, As + Extend([r], Bs));
    var rhs := Extend(prefix, As) + Extend(prefix + [r], Bs);
    assert |lhs| == |rhs|;
    forall k | 0 <= k < |lhs| ensures lhs[k] == rhs[k] {
      if k >= |As| {
        assert lhs[k] == prefix + ([r] + Bs[k - |As|]);
      }
    }
  }

  // ---------------------------------------------------------------------------
  // What an answer is
  // ---------------------------------------------------------------------------

  /** The members of `s`. */
  ghost function Elems(s: seq<int>): set<int>
  {
    set x | x in s
  }

  /** The columns of the row of 1-entry `x`. */
  ghost function RowColumns(sh: Shape, C: seq<int>, x: int): set<int>
  {
    if 0 <= x < |sh.rowOf| && 0 <= sh.rowOf[x] < |sh.rows| then
      set y | y in sh.rows[sh.rowOf[x]] && 0 <= y < |C| :: C[y]
    else {}
  }

  /** The entries `A` are 1-entries whose rows cover each column of `hs` exactly
      once, and no other column. */
  ghost predicate ExactCover(sh: Shape, C: seq<int>, A: seq<int>, hs: set<int>)
  {
    && (forall i | 0 <= i < |A| :: InRow(sh, A[i]))
    && (forall i | 0 <= i < |A| :: RowColumns(sh, C, A[i]) <= hs)
    && (forall i, j | 0 <= i < j < |A| :: RowColumns(sh, C, A[i]) !! RowColumns(sh, C, A[j]))
    && (forall h | h in hs :: exists i | 0 <= i < |A| :: h in RowColumns(sh, C, A[i]))
  }

  /** A row that covers the columns `cs` of `hs`, followed by an exact cover of the
      remaining columns, is an exact cover of `hs`. */
  lemma ExactCoverCons(sh: Shape, C: seq<int>, r: int, A: seq<int>, hs: set<int>, rest: set<int>)
    requires InRow(sh, r) && RowColumns(sh, C, r) <= hs && rest == hs - RowColumns(sh, C, r)
    requires ExactCover(sh, C, A, rest)
    ensures ExactCover(sh, C, [r] + A, hs)
  {
    var A' := [r] + A;
    forall i | 0 <= i < |A'| ensures InRow(sh, A'[i]) {
      if i > 0 {
        assert A'[i] == A[i - 1];
      }
    }
    forall i, j | 0 <= i < j < |A'| ensures RowColumns(sh, C, A'[i]) !! RowColumns(sh, C, A'[j]) {
      assert A'[j] == A[j - 1];
      if i > 0 {
        assert A'[i] == A[i - 1];
      }
    }
    forall h | h in hs ensures exists i | 0 <= i < |A'| :: h in RowColumns(sh, C, A'[i]) {
      if h !in RowColumns(sh, C, r) {
        assert h in rest;
        var i :| 0 <= i < |A| && h in RowColumns(sh, C, A[i]);
        assert A'[i + 1] == A[i];
      } else {
        assert A'[0] == r;
      }
    }
    forall i | 0 <= i < |A'| ensures RowColumns(sh, C, A'[i]) <= hs {
      if i > 0 {
        assert A'[i] == A[i - 1];
      }
    }
  }
}
