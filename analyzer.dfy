/** `SolutionsAnalyzer`: the boards of the solutions found, and, per cell, the
    set of values those boards hold there (the "info bank"); `dumbGreedy` picks
    the cells whose set is largest. A board is an `int[][]`, here its rows. */
module Analyzer {
  import Sudoku

  /** A cell (row, column) of a board. */
  type Square = (int, int)

  /** `getInfoBank`'s loops read cell (i, j) of `sol`: `i < sol.length` and
      `j < sol[0].length` (and the row is long enough to index). */
  predicate Covered(sol: seq<seq<int>>, i: int, j: int)
  {
    0 <= i < |sol| && 0 <= j < |sol[0]| && j < |sol[i]|
  }

  /** `getInfoBank` reads `sol` without an index out of range. Its inner loop
      runs only when the first row is non-empty, and then needs at most nine
      rows, a first row of at most nine values, and no row shorter than the first. */
  predicate Readable(sol: seq<seq<int>>)
  {
    |sol| > 0 && |sol[0]| > 0 ==>
      |sol| <= 9 && |sol[0]| <= 9 && forall i | 0 <= i < |sol| :: |sol[i]| >= |sol[0]|
  }

  /** The values the boards `sols` hold at cell (i, j), folded in order. */
  function Seen(sols: seq<seq<seq<int>>>, i: int, j: int): set<int>
    decreases |sols|
  {
    if sols == [] then {}
    else
      var last := sols[|sols| - 1];
      Seen(sols[..|sols| - 1], i, j) + if Covered(last, i, j) then {last[i][j]} else {}
  }

  /** One of the boards `sols` holds `v` at cell (i, j). */
  predicate Holds(sols: seq<seq<seq<int>>>, i: int, j: int, v: int)
  {
    exists k | 0 <= k < |sols| :: Covered(sols[k], i, j) && sols[k][i][j] == v
  }

  /** `v` is in the bank at (i, j) exactly when a stored board holds `v` there. */
  lemma {:induction false} SeenMember(sols: seq<seq<seq<int>>>, i: int, j: int, v: int)
    ensures v in Seen(sols, i, j) <==> Holds(sols, i, j, v)
    decreases |sols|
  {
    if sols != [] {
      var init, last := sols[..|sols| - 1], sols[|sols| - 1];
      SeenMember(init, i, j, v);
      if Holds(init, i, j, v) {
        var k :| 0 <= k < |init| && Covered(init[k], i, j) && init[k][i][j] == v;
        assert sols[k] == init[k];
      }
      if Holds(sols, i, j, v) {
        var k :| 0 <= k < |sols| && Covered(sols[k], i, j) && sols[k][i][j] == v;
        if k < |init| {
          assert init[k] == sols[k];
        }
      }
    }
  }

  /** Adding a board adds its value at (i, j), when it has that cell, and
      nothing else: the sets only grow. */
  lemma SeenAppend(sols: seq<seq<seq<int>>>, sol: seq<seq<int>>, i: int, j: int)
    ensures Seen(sols + [sol], i, j) == Seen(sols, i, j) + if Covered(sol, i, j) then {sol[i][j]} else {}
    ensures Seen(sols, i, j) <= Seen(sols + [sol], i, j)
  {
    assert (sols + [sol])[..|sols|] == sols;
  }

  /** With no board every set is empty; with at least one 9 by 9 board every
      set of the 81 cells has a value. */
  lemma SeenEmpty(sols: seq<seq<seq<int>>>, i: int, j: int)
    requires forall k | 0 <= k < |sols| :: Sudoku.NineByNine(sols[k])
    requires 0 <= i < 9 && 0 <= j < 9
    ensures Seen(sols, i, j) == {} <==> sols == []
  {
    if sols != [] {
      SeenMember(sols, i, j, sols[0][i][j]);
    }
  }

  /** A set with two different members has at least two. */
  lemma TwoMembers(S: set<int>, a: int, b: int)
    ensures a in S && b in S && a != b ==> |S| >= 2
  {
    if a in S && b in S && a != b {
      assert S == {a} + (S - {a});
      assert b in S - {a};
    }
  }

  /** The boards `sols` that have cell (i, j) all hold the same value there. */
  predicate Agree(sols: seq<seq<seq<int>>>, i: int, j: int)
  {
    forall k, k' | 0 <= k < |sols| && 0 <= k' < |sols| && Covered(sols[k], i, j) && Covered(sols[k'], i, j) ::
      sols[k][i][j] == sols[k'][i][j]
  }

  /** With at least one board, all of them having cell (i, j), its set has one
      value exactly when all the boards agree there. */
  lemma SeenSingleton(sols: seq<seq<seq<int>>>, i: int, j: int)
    requires sols != [] && forall k | 0 <= k < |sols| :: Covered(sols[k], i, j)
    ensures |Seen(sols, i, j)| == 1 <==> Agree(sols, i, j)
  {
    var S := Seen(sols, i, j);
    var v := sols[0][i][j];
    if Agree(sols, i, j) {
      forall w ensures w in S <==> w == v {
        SeenMember(sols, i, j, w);
      }
      assert S == {v};
    }
    if |S| == 1 {
      forall k, k' | 0 <= k < |sols| && 0 <= k' < |sols| ensures sols[k][i][j] == sols[k'][i][j] {
        SeenMember(sols, i, j, sols[k][i][j]);
        SeenMember(sols, i, j, sols[k'][i][j]);
        TwoMembers(S, sols[k][i][j], sols[k'][i][j]);
      }
    }
  }

  /** The bank depends only on which boards are stored: not on their order, nor
      on how often each is stored. */
  lemma SeenSameBoards(sols: seq<seq<seq<int>>>, sols': seq<seq<seq<int>>>, i: int, j: int)
    requires forall b :: b in sols <==> b in sols'
    ensures Seen(sols, i, j) == Seen(sols', i, j)
  {
    forall v ensures v in Seen(sols, i, j) <==> v in Seen(sols', i, j) {
      SeenMember(sols, i, j, v);
      SeenMember(sols', i, j, v);
      if Holds(sols, i, j, v) {
        var k :| 0 <= k < |sols| && Covered(sols[k], i, j) && sols[k][i][j] == v;
        assert sols[k] in sols';
      }
      if Holds(sols', i, j, v) {
        var k :| 0 <= k < |sols'| && Covered(sols'[k], i, j) && sols'[k][i][j] == v;
        assert sols'[k] in sols;
      }
    }
  }

  /** Cell `p` comes before cell `q` row by row. */
  predicate Before(p: Square, q: Square)
  {
    p.0 < q.0 || (p.0 == q.0 && p.1 < q.1)
  }

  /** The cells `ps` are in row-major order, none twice. */
  predicate RowMajor(ps: seq<Square>)
  {
    forall a, b | 0 <= a < b < |ps| :: Before(ps[a], ps[b])
  }

  /** A cell of a `rows` by `cols` board. */
  predicate InBoard(p: Square, rows: int, cols: int)
  {
    0 <= p.0 < rows && 0 <= p.1 < cols
  }

  class SolutionsAnalyzer {
    var solutions: seq<seq<seq<int>>>

    /** A new analyzer has no solutions. */
    constructor ()
      ensures solutions == []
    {
      solutions := [];
    }

    /** `addSolution(sol)`: appends `sol`; the boards stored before stay as they were. */
    method AddSolution(sol: seq<seq<int>>)
      modifies this
      ensures solutions == old(solutions) + [sol]
    {
      solutions := solutions + [sol];
    }

    /** `getInfoBank()`: nine by nine empty sets, then every value of every
        stored board added to the set of its cell. Each set ends as the values
        the stored boards hold at that cell. */
    method GetInfoBank() returns (infoBank: array2<set<int>>)
      requires forall k | 0 <= k < |solutions| :: Readable(solutions[k])
      ensures fresh(infoBank) && infoBank.Length0 == 9 && infoBank.Length1 == 9
      ensures forall i, j | 0 <= i < 9 && 0 <= j < 9 :: infoBank[i, j] == Seen(solutions, i, j)
    {
      infoBank := new set<int>[9, 9]((_, _) => {});
      for n := 0 to |solutions|
        invariant forall i, j | 0 <= i < 9 && 0 <= j < 9 :: infoBank[i, j] == Seen(solutions[..n], i, j)
      {
        var temp := solutions[n];
        assert solutions[..n + 1] == solutions[..n] + [temp];
        forall i, j ensures Seen(solutions[..n + 1], i, j) ==
          Seen(solutions[..n], i, j) + if Covered(temp, i, j) then {temp[i][j]} else {}
        {
          SeenAppend(solutions[..n], temp, i, j);
        }
        AddBoard(infoBank, temp, solutions[..n], solutions[..n + 1]);
      }
      assert solutions[..|solutions|] == solutions;
    }

    /** The two inner loops of `getInfoBank` for one board `temp`: every value
        it holds goes into the set of its cell, moving the bank from `before`
        to `after`. */
    static method AddBoard(infoBank: array2<set<int>>, temp: seq<seq<int>>,
                           ghost before: seq<seq<seq<int>>>, ghost after: seq<seq<seq<int>>>)
      requires infoBank.Length0 == 9 && infoBank.Length1 == 9 && Readable(temp)
      requires forall i, j | 0 <= i < 9 && 0 <= j < 9 :: infoBank[i, j] == Seen(before, i, j)
      requires forall i, j :: Seen(after, i, j) == Seen(before, i, j) + if Covered(temp, i, j) then {temp[i][j]} else {}
      modifies infoBank
      ensures forall i, j | 0 <= i < 9 && 0 <= j < 9 :: infoBank[i, j] == Seen(after, i, j)
    {
      for i := 0 to |temp|
        invariant forall a, b | 0 <= a < 9 && 0 <= b < 9 ::
          infoBank[a, b] == if a < i then Seen(after, a, b) else Seen(before, a, b)
      {
        for j := 0 to |temp[0]|
          invariant forall a, b | 0 <= a < 9 && 0 <= b < 9 ::
            infoBank[a, b] == if a < i || (a == i && b < j) then Seen(after, a, b) else Seen(before, a, b)
        {
          infoBank[i, j] := infoBank[i, j] + {temp[i][j]};
        }
      }
    }

    /** `analyzeSolutions()` without its printing: the bank of the stored
        boards, handed to `dumbGreedy` as `printInfo` does. */
    method AnalyzeSolutions() returns (max: int, highESquares: seq<Square>)
      requires forall k | 0 <= k < |solutions| :: Readable(solutions[k])
      ensures forall i, j | 0 <= i < 9 && 0 <= j < 9 :: |Seen(solutions, i, j)| <= max
      ensures forall p :: p in highESquares <==> InBoard(p, 9, 9) && |Seen(solutions, p.0, p.1)| == max
      ensures highESquares != [] && RowMajor(highESquares)
    {
      var infoBank := GetInfoBank();
      max, highESquares := DumbGreedy(infoBank);
    }
  }

  /** `dumbGreedy(info)` without its printing: `max` is the largest set size
      (-1 for an empty bank), and `highESquares` lists every cell whose set has
      that size, row by row. */
  method DumbGreedy(info: array2<set<int>>) returns (max: int, highESquares: seq<Square>)
    ensures info.Length0 == 0 || info.Length1 == 0 ==> max == -1 && highESquares == []
    ensures forall i, j | 0 <= i < info.Length0 && 0 <= j < info.Length1 :: |info[i, j]| <= max
    ensures forall p :: p in highESquares <==> InBoard(p, info.Length0, info.Length1) && |info[p.0, p.1]| == max
    ensures RowMajor(highESquares)
    ensures info.Length0 > 0 && info.Length1 > 0 ==> highESquares != []
  {
    var rows, cols := info.Length0, info.Length1;
    max := -1;
    ghost var top: Square := (-1, -1);
    for i := 0 to rows
      invariant forall a, b | 0 <= a < i && 0 <= b < cols :: |info[a, b]| <= max
      invariant if i > 0 && cols > 0 then InBoard(top, rows, cols) && |info[top.0, top.1]| == max else max == -1
    {
      for j := 0 to cols
        invariant forall a, b | 0 <= b < cols && (0 <= a < i || (a == i && 0 <= b < j)) :: |info[a, b]| <= max
        invariant if (i > 0 && cols > 0) || j > 0 then InBoard(top, rows, cols) && |info[top.0, top.1]| == max else max == -1
      {
        if |info[i, j]| >= max {
          max := |info[i, j]|;
          top := (i, j);
        }
      }
    }
    highESquares := [];
    for i := 0 to rows
      invariant forall p :: p in highESquares <==> InBoard(p, i, cols) && |info[p.0, p.1]| == max
      invariant i == 0 || cols == 0 ==> highESquares == []
      invariant RowMajor(highESquares) && forall p | p in highESquares :: p.0 < i
    {
      for j := 0 to cols
        invariant forall p :: p in highESquares <==>
          (InBoard(p, i, cols) || (p.0 == i && 0 <= p.1 < j)) && |info[p.0, p.1]| == max
        invariant RowMajor(highESquares) && forall p | p in highESquares :: Before(p, (i, j))
        invariant cols == 0 ==> highESquares == []
      {
        if |info[i, j]| == max {
          highESquares := highESquares + [(i, j)];
        }
      }
    }
    if rows > 0 && cols > 0 {
      assert top in highESquares;
    }
  }
}
