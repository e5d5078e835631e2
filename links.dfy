/** The arrays that hold the node fields. */
module NodeArrays {
  /** Six distinct arrays of one length, so that writing one leaves the others alone. */
  predicate Apart(L: array<int>, R: array<int>, U: array<int>, D: array<int>, C: array<int>, size: array<int>)
  {
    && L != R && L != U && L != D && L != C && L != size
    && R != U && R != D && R != C && R != size
    && U != D && U != C && U != size
    && D != C && D != size
    && C != size
    && R.Length == L.Length && U.Length == L.Length && D.Length == L.Length
    && C.Length == L.Length && size.Length == L.Length
  }
}

/** The node graph of `DancingNode` and `ColumnNode`, stored as parallel arrays
    indexed by node id: `L[x]`, `R[x]`, `U[x]`, `D[x]` are the neighbours of node
    `x`, `C[x]` is its column header and `size[h]` the count kept by header `h`. */
module Links {
  import opened NodeArrays
  import opened Rings
  import opened Matrix
  import opened CoverFacts

  class DancingLinks {
    var L: array<int>
    var R: array<int>
    var U: array<int>
    var D: array<int>
    var C: array<int>
    var size: array<int>

    /** The six node fields are separate arrays of one length. */
    ghost predicate Inv()
      reads this`L, this`R, this`U, this`D, this`C, this`size
    {
      Apart(L, R, U, D, C, size)
    }

    /** The node fields as values. */
    function State(): (g: Arena)
      reads this`L, this`R, this`U, this`D, this`C, this`size, L, R, U, D, C, size
      ensures Inv() ==> Sized(g) && |g.L| == L.Length
    {
      Arena(L[..], R[..], U[..], D[..], C[..], size[..])
    }

    /** Room for `n` nodes, none of them linked yet. */
    constructor (n: nat)
      ensures Inv() && L.Length == n
      ensures fresh(L) && fresh(R) && fresh(U) && fresh(D) && fresh(C) && fresh(size)
    {
      L := new int[n](_ => 0);
      R := new int[n](_ => 0);
      U := new int[n](_ => 0);
      D := new int[n](_ => 0);
      C := new int[n](_ => 0);
      size := new int[n](_ => 0);
    }

    /** `new DancingNode(c)`: node `x` alone in its row and its column, with header `c`. */
    method NewNode(x: int, c: int)
      requires Inv() && 0 <= x < L.Length
      modifies L, R, U, D, C
      ensures Inv() && State() == Rings.NewNode(old(State()), x, c)
    {
      L[x], R[x], U[x], D[x] := x, x, x, x;
      C[x] := c;
    }

    /** `new ColumnNode(name)`: header `x` alone in both rings, its own column, counting 0. */
    method NewColumnNode(x: int)
      requires Inv() && 0 <= x < L.Length
      modifies L, R, U, D, C, size
      ensures Inv() && State() == Rings.NewColumnNode(old(State()), x)
    {
      L[x], R[x], U[x], D[x] := x, x, x, x;
      C[x] := x;
      size[x] := 0;
    }

    /** `x.linkRight(n)`: `n` becomes the right neighbour of `x`; returns `n`. */
    method LinkRight(x: int, n: int) returns (r: int)
      requires Inv() && Has(Row(State()), x) && Has(Row(State()), n) && Has(Row(State()), R[x])
      modifies L, R
      ensures Inv() && State() == Rings.LinkRight(old(State()), x, n) && r == n
    {
      R[n] := R[x];
      L[R[n]] := n;
      L[n] := x;
      R[x] := n;
      r := n;
    }

    /** `x.linkBelow(n)`: `n`, of the same column, becomes the node below `x`; returns `n`. */
    method LinkBelow(x: int, n: int) returns (r: int)
      requires Inv() && Has(Col(State()), x) && Has(Col(State()), n) && Has(Col(State()), D[x])
      requires C[x] == C[n]
      modifies U, D
      ensures Inv() && State() == Rings.LinkBelow(old(State()), x, n) && r == n
    {
      D[n] := D[x];
      U[D[n]] := n;
      U[n] := x;
      D[x] := n;
      r := n;
    }

    /** `x.unlinkLR()`: the row neighbours of `x` point past it. */
    method UnlinkLR(x: int)
      requires Inv() && Has(Row(State()), x) && Has(Row(State()), R[x]) && Has(Row(State()), L[x])
      modifies L, R
      ensures Inv() && State() == Rings.UnlinkLR(old(State()), x)
    {
      R[L[x]] := R[x];
      L[R[x]] := L[x];
    }

    /** `x.unlinkUD()`: the column neighbours of `x` point past it. */
    method UnlinkUD(x: int)
      requires Inv() && Has(Col(State()), x) && Has(Col(State()), D[x]) && Has(Col(State()), U[x])
      modifies U, D
      ensures Inv() && State() == Rings.UnlinkUD(old(State()), x)
    {
      D[U[x]] := D[x];
      U[D[x]] := U[x];
    }

    /** `x.relinkLR()`: the row neighbours `x` kept point at it again. */
    method RelinkLR(x: int)
      requires Inv() && Has(Row(State()), x) && Has(Row(State()), R[x]) && Has(Row(State()), L[x])
      modifies L, R
      ensures Inv() && State() == Rings.RelinkLR(old(State()), x)
    {
      var left := L[x];
      L[R[x]] := x;
      R[left] := x;
    }

    /** `x.relinkUD()`: the column neighbours `x` kept point at it again. */
    method RelinkUD(x: int)
      requires Inv() && Has(Col(State()), x) && Has(Col(State()), D[x]) && Has(Col(State()), U[x])
      modifies U, D
      ensures Inv() && State() == Rings.RelinkUD(old(State()), x)
    {
      var up := U[x];
      U[D[x]] := x;
      D[up] := x;
    }

    /** `c.cover()`: take header `c` out of the header ring, then walk down its
        column and, for every entry there, unlink the other entries of its row
        from their columns, decrementing their columns' counts. `sh` describes
        the rings before the call; `CoverShape` describes them after it. */
    method Cover(c: int, ghost sh: Shape)
      requires Inv() && Coverable(State(), sh, c)
      modifies L, R, U, D, size
      ensures Inv() && State() == CoverResult(old(State()), sh, c)
    {
      ghost var g0 := State();
      CoverPlan(g0, sh, c);
      UnlinkLR(c);
      ghost var g1 := State();
      ghost var col := sh.cols[c - 1];
      CoverColumn(c, col, RowsOf(sh, col), Runs(g1, sh, col), Stages(g1, sh, col));
    }

    /** The loops of `cover` after the header is unlinked: for each entry `i` down
        from `c`, cover the rest of `i`'s row; `ws` are the states after each row. */
    method CoverColumn(c: int, ghost col: seq<int>, ghost os: seq<seq<int>>,
                       ghost gss: seq<seq<Arena>>, ghost ws: seq<Arena>)
      requires Inv() && WalkDown(c, col, os, gss, ws, Row(State())) && State() == ws[0]
      modifies U, D, size
      ensures Inv() && State() == ws[|col|]
    {
      ghost var rowch := Row(State());
      var i := D[c];
      ghost var p := 0;
      while i != c
        invariant Inv() && 0 <= p <= |col| && State() == ws[p]
        invariant i == if p < |col| then col[p] else c
        decreases |col| - p
      {
        assert DownAt(c, col, os, gss, ws, rowch, p);
        CoverRow(i, os[p], gss[p]);
        i := D[i];
        p := p + 1;
      }
    }

    /** The body of `cover`'s inner loop: `j.unlinkUD(); j.C.size--;`. */
    method CoverEntry(j: int)
      requires Inv() && CanStep(State(), j)
      modifies U, D, size
      ensures Inv() && State() == CoverStep(old(State()), j)
    {
      ghost var g := State();
      UnlinkUD(j);
      var h := C[j];
      size[h] := size[h] - 1;
      CoverStepIsUnlinkThenCount(g, j);
    }

    /** The inner loop of `cover`: `for (j = i.R; j != i; j = j.R) { ... }`
        where the rest of `i`'s row is `o` and `gs` the states the steps go through. */
    method CoverRow(i: int, ghost o: seq<int>, ghost gs: seq<Arena>)
      requires Inv() && RowPlan(Row(State()), i, o, gs) && State() == gs[0]
      modifies U, D, size
      ensures Inv() && State() == gs[|o|]
    {
      ghost var ch := Row(State());
      RingFirst(ch, i, o);
      var j := R[i];
      ghost var q := 0;
      while j != i
        invariant Inv() && 0 <= q <= |o| && R[..] == ch.next
        invariant j == if q < |o| then o[q] else i
        invariant State() == gs[q]
        decreases |o| - q
      {
        RingNext(ch, i, o, q);
        CoverEntry(j);
        j := R[j];
        q := q + 1;
      }
    }

    /** `c.uncover()`, called on the state that `c.cover()` produced from `g0`:
        walk up the column and, for every entry, relink the other entries of its
        row right to left, restoring the counts; then relink the header. */
    method Uncover(c: int, ghost g0: Arena, ghost sh0: Shape)
      requires Inv() && Coverable(g0, sh0, c)
      requires State() == CoverResult(g0, sh0, c)
      modifies L, R, U, D, size
      ensures Inv() && State() == g0
    {
      CoverPlan(g0, sh0, c);
      ghost var g1 := Rings.UnlinkLR(g0, c);
      ghost var col := sh0.cols[c - 1];
      UncoverColumn(c, col, RowsOf(sh0, col), Runs(g1, sh0, col), Stages(g1, sh0, col));
      ActiveHeader(g0, sh0, c);
      RelinkUndoesUnlink(Row(g0), c);
      RelinkLR(c);
    }

    /** The loops of `uncover` before the header is relinked: for each entry `i` up
        from `c`, uncover the rest of `i`'s row; the stages `ws` are retraced backwards. */
    method UncoverColumn(c: int, ghost col: seq<int>, ghost os: seq<seq<int>>,
                         ghost gss: seq<seq<Arena>>, ghost ws: seq<Arena>)
      requires Inv() && WalkUp(c, col, os, gss, ws, Row(State())) && State() == ws[|col|]
      modifies U, D, size
      ensures Inv() && State() == ws[0]
    {
      ghost var rowch := Row(State());
      var i := U[c];
      ghost var p := |col| - 1;
      while i != c
        invariant Inv() && -1 <= p < |col| && State() == ws[p + 1]
        invariant i == if p >= 0 then col[p] else c
        decreases p + 1
      {
        assert UpAt(c, col, os, gss, ws, rowch, p);
        UncoverRow(i, os[p], gss[p]);
        i := U[i];
        p := p - 1;
      }
    }

    /** The body of `uncover`'s inner loop: `j.C.size++; j.relinkUD();`. */
    method UncoverEntry(j: int)
      requires Inv() && CanStep(State(), j)
      modifies U, D, size
      ensures Inv() && State() == UncoverStep(old(State()), j)
    {
      ghost var g := State();
      var h := C[j];
      size[h] := size[h] + 1;
      RelinkUD(j);
      UncoverStepIsCountThenRelink(g, j);
    }

    /** The inner loop of `uncover`: `for (j = i.L; j != i; j = j.L) { ... }`, which
        undoes the steps of the run `gs` over `o` from last to first. */
    method UncoverRow(i: int, ghost o: seq<int>, ghost gs: seq<Arena>)
      requires Inv() && RowPlan(Row(State()), i, o, gs) && State() == gs[|o|]
      modifies U, D, size
      ensures Inv() && State() == gs[0]
    {
      ghost var ch := Row(State());
      RingFirst(ch, i, o);
      var j := L[i];
      ghost var q := |o| - 1;
      while j != i
        invariant Inv() && -1 <= q < |o| && L[..] == ch.prev
        invariant j == if q >= 0 then o[q] else i
        invariant State() == gs[q + 1]
        decreases q + 1
      {
        RingNext(ch, i, o, q);
        UncoverStepUndoesCoverStep(gs[q], j);
        UncoverEntry(j);
        j := L[j];
        q := q - 1;
      }
    }
  }
}
