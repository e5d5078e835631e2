/** The solution handlers' `parseBoard`: `SudokuHandler` reads a board off the
    entries of an answer, `DefaultHandler` has no board to give. */
module Handler {
  import opened Rings
  import opened Matrix
  import opened Links
  import opened Algorithm
  import opened SearchState
  import opened CoverFacts

  datatype Option<T> = None | Some(value: T)

  /** The two solution handlers; `SudokuHandler(size)` decodes boards of side `size`. */
  datatype Kind = SudokuHandler(size: int) | DefaultHandler

  /** A value `num` written into cell (`r`, `c`). */
  datatype Placement = Placement(r: int, c: int, num: int)

  /** The column names of the nodes `ys`: a column's name is its index, one less
      than its header's node number (-1 for a node outside the arena). */
  function Names(C: seq<int>, ys: seq<int>): seq<int>
  {
    seq(|ys|, k requires 0 <= k < |ys| => if 0 <= ys[k] < |C| then C[ys[k]] - 1 else -1)
  }

  /** What `parseBoard` makes of an entry whose row, read rightwards from the
      entry, has column names `ns`: `ans1` is the first smallest name, `ans2`
      the name right of it in the ring, and the entry places `ans2 % size + 1`
      in cell (`ans1 / size`, `ans1 % size`). */
  function ReadRow(ns: seq<int>, size: int): Placement
    requires |ns| > 0 && size > 0
  {
    var q := ArgMinUpTo(ns, |ns|);
    Placement(ns[q] / size, ns[q] % size, ns[Next(q, |ns|)] % size + 1)
  }

  /** The position after `q` in a ring of `len` positions. */
  function Next(q: int, len: int): int
  {
    if q + 1 < len then q + 1 else 0
  }

  /** The placements of the entries `answer`, in order. */
  ghost function Placements(sh: Shape, C: seq<int>, answer: seq<int>, size: int): (ps: seq<Placement>)
    requires size > 0
    ensures |ps| == |answer|
  {
    seq(|answer|, k requires 0 <= k < |answer| => ReadRow(Names(C, RowFrom(sh, answer[k])), size))
  }

  /** Cell (`a`, `b`) after the placements `ps` are written in order into a
      board of zeros: the last value placed there, or 0. */
  function CellValue(ps: seq<Placement>, a: int, b: int): int
    decreases |ps|
  {
    if ps == [] then 0
    else if ps[|ps| - 1].r == a && ps[|ps| - 1].c == b then ps[|ps| - 1].num
    else CellValue(ps[..|ps| - 1], a, b)
  }

  /** A cell no placement names keeps its 0. */
  lemma {:induction false} CellValueUnnamed(ps: seq<Placement>, a: int, b: int)
    requires forall k | 0 <= k < |ps| :: !(ps[k].r == a && ps[k].c == b)
    ensures CellValue(ps, a, b) == 0
    decreases |ps|
  {
    if ps != [] {
      CellValueUnnamed(ps[..|ps| - 1], a, b);
    }
  }

  /** A cell named by exactly one placement holds that placement's value. */
  lemma {:induction false} CellValueOnly(ps: seq<Placement>, a: int, b: int, k: int)
    requires 0 <= k < |ps| && ps[k].r == a && ps[k].c == b
    requires forall k' | 0 <= k' < |ps| && ps[k'].r == a && ps[k'].c == b :: k' == k
    ensures CellValue(ps, a, b) == ps[k].num
    decreases |ps|
  {
    var init := ps[..|ps| - 1];
    if k < |ps| - 1 {
      assert init[k] == ps[k];
      CellValueOnly(init, a, b, k);
    }
  }

  /** The entries of `x`'s row, read from `x`, form its ring, and each has a column. */
  lemma RowRing(g: Arena, sh: Shape, x: int)
    requires Sound(g, sh) && sh.m < x < sh.n
    ensures RowFrom(sh, x) == [x] + Others(sh, x)
    ensures Ring(Row(g), RowFrom(sh, x))
    ensures forall z | z in RowFrom(sh, x) :: 0 <= z < |g.C| && 1 <= g.C[z]
  {
    assert Valid(g, sh);
    OthersFacts(g, sh, x);
    var s := RowFrom(sh, x);
    assert s == [x] + Others(sh, x);
    assert RowOk(Row(g), g.C, sh, sh.rowOf[x]);
    forall z | z in s ensures 0 <= z < |g.C| && 1 <= g.C[z] {
      assert z == x || z in sh.rows[sh.rowOf[x]];
    }
  }

  /** `SudokuHandler.parseBoard(answer)` on the sound matrix `sh`: for each entry
      `n` of `answer`, walk its row from `n.R` back to `n`, keeping the first
      node of smallest column name, and write the value read from it and its
      right neighbour into the cell it names. Each cell ends with the last value
      written into it, or 0; the links are only read. */
  method SudokuParseBoard(links: DancingLinks, size: int, answer: seq<int>, ghost sh: Shape)
    returns (result: array2<int>)
    requires links.Inv() && Sound(links.State(), sh) && size > 0
    requires forall k | 0 <= k < |answer| :: sh.m < answer[k] < sh.n
    requires forall k | 0 <= k < |answer| :: Placements(sh, links.State().C, answer, size)[k].r < size
    ensures fresh(result) && result.Length0 == size && result.Length1 == size
    ensures forall a, b | 0 <= a < size && 0 <= b < size ::
      result[a, b] == CellValue(Placements(sh, links.State().C, answer, size), a, b)
  {
    ghost var g := links.State();
    ghost var ps := Placements(sh, g.C, answer, size);
    result := new int[size, size]((_, _) => 0);
    for k := 0 to |answer|
      invariant forall a, b | 0 <= a < size && 0 <= b < size :: result[a, b] == CellValue(ps[..k], a, b)
    {
      var r, c, num := ReadEntry(links, size, answer[k], sh);
      assert ps[k] == Placement(r, c, num);
      result[r, c] := num;
      assert ps[..k + 1][..k] == ps[..k];
    }
    assert ps[..|answer|] == ps;
  }

  /** The body of `parseBoard`'s loop for entry `n`, up to the write: the cell
      (`r`, `c`) and the value `num` read from `n`'s row. */
  method ReadEntry(links: DancingLinks, size: int, n: int, ghost sh: Shape) returns (r: int, c: int, num: int)
    requires links.Inv() && Sound(links.State(), sh) && size > 0 && sh.m < n < sh.n
    ensures Placement(r, c, num) == ReadRow(Names(links.State().C, RowFrom(sh, n)), size)
    ensures 0 <= r && 0 <= c < size
  {
    ghost var g := links.State();
    var rcNode := RowMinimum(links, n, sh);
    ReadRowAt(g, sh, n, size, rcNode);
    var ans1 := links.C[rcNode] - 1;
    var ans2 := links.C[links.R[rcNode]] - 1;
    r := ans1 / size;
    c := ans1 % size;
    num := ans2 % size + 1;
  }

  /** What `parseBoard` reads from the node `y` of `x`'s row with the first
      smallest column name, and from its right neighbour. */
  lemma ReadRowAt(g: Arena, sh: Shape, x: int, size: int, y: int)
    requires Sound(g, sh) && sh.m < x < sh.n && size > 0
    requires var ring := RowFrom(sh, x); y == ring[ArgMinUpTo(Names(g.C, ring), |ring|)]
    ensures 0 <= y < |g.R| && y < |g.C| && 0 <= g.R[y] < |g.C| && g.C[y] - 1 >= 0
    ensures ReadRow(Names(g.C, RowFrom(sh, x)), size)
      == Placement((g.C[y] - 1) / size, (g.C[y] - 1) % size, (g.C[g.R[y]] - 1) % size + 1)
  {
    RowMinimumFacts(g, sh, x);
  }

  /** The node of `x`'s row with the first smallest column name, read from `x`,
      its right neighbour, and their names, which are column indices. */
  lemma RowMinimumFacts(g: Arena, sh: Shape, x: int)
    requires Sound(g, sh) && sh.m < x < sh.n
    ensures var ring := RowFrom(sh, x); var ns := Names(g.C, ring); var q := ArgMinUpTo(ns, |ns|);
      && 0 <= ring[q] < |g.R| && ring[q] < |g.C| && 0 <= g.R[ring[q]] < |g.C| && g.R[ring[q]] == ring[Next(q, |ring|)]
      && g.C[ring[q]] - 1 == ns[q] >= 0 && g.C[g.R[ring[q]]] - 1 == ns[Next(q, |ns|)]
  {
    var ring := RowFrom(sh, x);
    var o := Others(sh, x);
    var ns := Names(g.C, ring);
    var q := ArgMinUpTo(ns, |ns|);
    RowRing(g, sh, x);
    assert ring[q] in ring && ring[Next(q, |ring|)] in ring;
    if q == 0 {
      WalkFirst(Row(g), x, o);
    } else {
      WalkNext(Row(g), x, o, q - 1);
    }
  }

  /** The walk of `parseBoard` around the row of entry `n`: `rcNode` is the first
      node, in ring order from `n`, with the smallest column name. */
  method RowMinimum(links: DancingLinks, n: int, ghost sh: Shape) returns (rcNode: int)
    requires links.Inv() && Sound(links.State(), sh) && sh.m < n < sh.n
    ensures var ring := RowFrom(sh, n); rcNode == ring[ArgMinUpTo(Names(links.State().C, ring), |ring|)]
  {
    ghost var g := links.State();
    ghost var ring := RowFrom(sh, n);
    ghost var o := Others(sh, n);
    ghost var ns := Names(g.C, ring);
    RowWalkStart(g, sh, n);
    rcNode := n;
    var min := links.C[rcNode] - 1;
    var tmp := links.R[n];
    ghost var t := 0;
    while tmp != n
      invariant 0 <= t <= |o| && tmp == if t < |o| then o[t] else n
      invariant rcNode == ring[ArgMinUpTo(ns, t + 1)] && min == ns[ArgMinUpTo(ns, t + 1)]
      decreases |o| - t
    {
      RowWalkStep(g, sh, n, t);
      ArgMinNext(ns, t + 1);
      var val := links.C[tmp] - 1;
      if val < min {
        min := val;
        rcNode := tmp;
      }
      tmp := links.R[tmp];
      t := t + 1;
    }
  }

  /** Where `parseBoard`'s walk around the row of `n` starts: at `n`, the first
      node of the ring `RowFrom(sh, n)`, whose right neighbour comes next. */
  lemma RowWalkStart(g: Arena, sh: Shape, n: int)
    requires Sound(g, sh) && sh.m < n < sh.n
    ensures var ring, o := RowFrom(sh, n), Others(sh, n);
      && |ring| == |o| + 1 && ring[0] == n && 0 <= n < |g.R| && n < |g.C|
      && g.C[n] - 1 == Names(g.C, ring)[0] && ArgMinUpTo(Names(g.C, ring), 1) == 0
      && g.R[n] == (if o == [] then n else o[0]) && n !in o
  {
    var ring := RowFrom(sh, n);
    RowRing(g, sh, n);
    WalkFirst(Row(g), n, Others(sh, n));
    assert ring[0] == n && n in ring;
  }

  /** One step of that walk: the node `o[t]` is node `t + 1` of the ring, and
      its right neighbour is the next one (or `n` again). */
  lemma RowWalkStep(g: Arena, sh: Shape, n: int, t: int)
    requires Sound(g, sh) && sh.m < n < sh.n && 0 <= t < |Others(sh, n)|
    ensures var ring, o, ns := RowFrom(sh, n), Others(sh, n), Names(g.C, RowFrom(sh, n));
      && |ring| == |o| + 1 == |ns| && ring[t + 1] == o[t] && 0 <= o[t] < |g.R| && o[t] < |g.C|
      && g.C[o[t]] - 1 == ns[t + 1] && g.R[o[t]] == (if t + 1 < |o| then o[t + 1] else n)
  {
    var ring, o := RowFrom(sh, n), Others(sh, n);
    RowRing(g, sh, n);
    WalkNext(Row(g), n, o, t);
    assert ring[t + 1] == o[t] && o[t] in ring;
  }

  /** `handler.parseBoard(answer)` for either handler: a Sudoku handler decodes
      the board as `SudokuParseBoard` does, the default handler gives `null`. */
  method ParseBoard(handler: Kind, links: DancingLinks, answer: seq<int>, ghost sh: Shape)
    returns (board: Option<array2<int>>)
    requires handler.SudokuHandler? ==>
      && links.Inv() && Sound(links.State(), sh) && handler.size > 0
      && (forall k | 0 <= k < |answer| :: sh.m < answer[k] < sh.n)
      && (forall k | 0 <= k < |answer| :: Placements(sh, links.State().C, answer, handler.size)[k].r < handler.size)
    ensures handler.DefaultHandler? <==> board.None?
    ensures board.Some? ==> var size := handler.size;
      && fresh(board.value) && board.value.Length0 == size && board.value.Length1 == size
      && forall a, b | 0 <= a < size && 0 <= b < size ::
        board.value[a, b] == CellValue(Placements(sh, links.State().C, answer, size), a, b)
  {
    match handler
    case SudokuHandler(size) =>
      var result := SudokuParseBoard(links, size, answer, sh);
      board := Some(result);
    case DefaultHandler =>
      board := None;
  }
}
