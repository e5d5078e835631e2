/** Pure view of the dancing-links node fields.

    Every node of the exact-cover matrix is an index into an arena. A node's
    row ring is given by its L/R fields and its column ring by its U/D fields;
    both rings obey the same splice / unlink / relink operations, so those are
    defined once over a `Chain` (a successor and a predecessor sequence) and
    instantiated for the two directions. */
module Rings {

  /** One direction of links: `next[x]` and `prev[x]` are the neighbours of node `x`. */
  datatype Chain = Chain(next: seq<int>, prev: seq<int>)

  /** All node fields of the arena, indexed by node id. */
  datatype Arena = Arena(L: seq<int>, R: seq<int>, U: seq<int>, D: seq<int>, C: seq<int>, size: seq<int>)

  /** The row direction (L/R) of an arena. */
  function Row(g: Arena): Chain { Chain(g.R, g.L) }

  /** The column direction (U/D) of an arena. */
  function Col(g: Arena): Chain { Chain(g.D, g.U) }

  function WithRow(g: Arena, ch: Chain): Arena { g.(R := ch.next, L := ch.prev) }

  function WithCol(g: Arena, ch: Chain): Arena { g.(D := ch.next, U := ch.prev) }

  predicate Has(ch: Chain, x: int) { 0 <= x < |ch.next| && x < |ch.prev| }

  ghost predicate Distinct(s: seq<int>)
  {
    forall a, b | 0 <= a < b < |s| :: s[a] != s[b]
  }

  /** `s` lists the members of one circular doubly-linked ring in traversal order. */
  ghost predicate Ring(ch: Chain, s: seq<int>)
  {
    && |s| > 0
    && Distinct(s)
    && (forall k | 0 <= k < |s| :: Has(ch, s[k]) && Has(ch, ch.next[s[k]]) && Has(ch, ch.prev[s[k]]))
    && (forall k | 0 <= k < |s| - 1 :: ch.next[s[k]] == s[k + 1] && ch.prev[s[k + 1]] == s[k])
    && ch.next[s[|s| - 1]] == s[0]
    && ch.prev[s[0]] == s[|s| - 1]
  }

  /** The ring read from its member `i`: `i`, then the rest `o` in traversal order. */
  ghost predicate RingFrom(ch: Chain, i: int, o: seq<int>)
  {
    Ring(ch, [i] + o)
  }

  /** Node `x` is linked: both of its neighbours point back at it. */
  predicate Linked(ch: Chain, x: int)
    requires Has(ch, x) && Has(ch, ch.next[x]) && Has(ch, ch.prev[x])
  {
    ch.next[ch.prev[x]] == x && ch.prev[ch.next[x]] == x
  }

  /** `linkRight`/`linkBelow`: put `n` immediately after `x`. */
  function Splice(ch: Chain, x: int, n: int): Chain
    requires Has(ch, x) && Has(ch, n) && Has(ch, ch.next[x])
  {
    var r := ch.next[x];
    Chain(ch.next[n := r][x := n], ch.prev[r := n][n := x])
  }

  /** `unlinkLR`/`unlinkUD`: the neighbours of `x` point past it; `x` keeps its own links. */
  function Unlink(ch: Chain, x: int): Chain
    requires Has(ch, x) && Has(ch, ch.next[x]) && Has(ch, ch.prev[x])
  {
    Chain(ch.next[ch.prev[x] := ch.next[x]], ch.prev[ch.next[x] := ch.prev[x]])
  }

  /** `relinkLR`/`relinkUD`: the neighbours recorded in `x` point at `x` again. */
  function Relink(ch: Chain, x: int): Chain
    requires Has(ch, x) && Has(ch, ch.next[x]) && Has(ch, ch.prev[x])
  {
    Chain(ch.next[ch.prev[x] := x], ch.prev[ch.next[x] := x])
  }

  /** The first position of `x` in `s`. */
  function IndexOf(s: seq<int>, x: int): (k: nat)
    requires x in s
    ensures k < |s| && s[k] == x
    ensures forall t | 0 <= t < k :: s[t] != x
  {
    if s[0] == x then 0 else 1 + IndexOf(s[1..], x)
  }

  /** Element `k` dropped from `s`. */
  function Without(s: seq<int>, k: int): (r: seq<int>)
    requires 0 <= k < |s|
    ensures |r| == |s| - 1
    ensures forall t | 0 <= t < k :: r[t] == s[t]
    ensures forall t | k <= t < |r| :: r[t] == s[t + 1]
  {
    s[..k] + s[k + 1..]
  }

  // ---------------------------------------------------------------------------
  // The DancingNode / ColumnNode methods on the whole arena
  // ---------------------------------------------------------------------------

  /** All six fields have one entry per node. */
  predicate Sized(g: Arena)
  {
    |g.R| == |g.L| && |g.U| == |g.L| && |g.D| == |g.L| && |g.C| == |g.L| && |g.size| == |g.L|
  }

  /** `new DancingNode(c)`: node `x` alone in both of its rings, with column header `c`. */
  function NewNode(g: Arena, x: int, c: int): Arena
    requires Sized(g) && 0 <= x < |g.L|
  {
    g.(L := g.L[x := x], R := g.R[x := x], U := g.U[x := x], D := g.D[x := x], C := g.C[x := c])
  }

  /** `new ColumnNode(name)`: a header alone in both rings, its own column, with size 0. */
  function NewColumnNode(g: Arena, x: int): Arena
    requires Sized(g) && 0 <= x < |g.L|
  {
    NewNode(g, x, x).(size := g.size[x := 0])
  }

  function LinkRight(g: Arena, x: int, n: int): Arena
    requires Has(Row(g), x) && Has(Row(g), n) && Has(Row(g), g.R[x])
  {
    WithRow(g, Splice(Row(g), x, n))
  }

  function LinkBelow(g: Arena, x: int, n: int): Arena
    requires Has(Col(g), x) && Has(Col(g), n) && Has(Col(g), g.D[x])
  {
    WithCol(g, Splice(Col(g), x, n))
  }

  function UnlinkLR(g: Arena, x: int): Arena
    requires Has(Row(g), x) && Has(Row(g), g.R[x]) && Has(Row(g), g.L[x])
  {
    WithRow(g, Unlink(Row(g), x))
  }

  function UnlinkUD(g: Arena, x: int): Arena
    requires Has(Col(g), x) && Has(Col(g), g.D[x]) && Has(Col(g), g.U[x])
  {
    WithCol(g, Unlink(Col(g), x))
  }

  function RelinkLR(g: Arena, x: int): Arena
    requires Has(Row(g), x) && Has(Row(g), g.R[x]) && Has(Row(g), g.L[x])
  {
    WithRow(g, Relink(Row(g), x))
  }

  function RelinkUD(g: Arena, x: int): Arena
    requires Has(Col(g), x) && Has(Col(g), g.D[x]) && Has(Col(g), g.U[x])
  {
    WithCol(g, Relink(Col(g), x))
  }

  // ---------------------------------------------------------------------------
  // Properties of the single-node operations
  // ---------------------------------------------------------------------------

  /** A node that is alone in its ring can be spliced after itself without effect:
      the first node of every matrix row relies on this. */
  lemma SpliceSelfIsNoOp(ch: Chain, n: int)
    requires Has(ch, n) && ch.next[n] == n && ch.prev[n] == n
    ensures Splice(ch, n, n) == ch
  {
  }

  /** The links `Splice(ch, x, n)` changes, and those it keeps. */
  lemma SpliceLinks(ch: Chain, x: int, n: int)
    requires Has(ch, x) && Has(ch, n) && Has(ch, ch.next[x]) && n != x
    ensures Splice(ch, x, n).next[x] == n && Splice(ch, x, n).prev[n] == x
    ensures Splice(ch, x, n).next[n] == ch.next[x]
    ensures n != ch.next[x] ==> Splice(ch, x, n).prev[ch.next[x]] == n
    ensures forall y | Has(ch, y) && y != x && y != n :: Splice(ch, x, n).next[y] == ch.next[y]
    ensures forall y | Has(ch, y) && y != ch.next[x] && y != n :: Splice(ch, x, n).prev[y] == ch.prev[y]
    ensures |Splice(ch, x, n).next| == |ch.next| && |Splice(ch, x, n).prev| == |ch.prev|
  {
  }

  /** Splicing a node `n` from outside the ring after the ring's last member
      appends `n` to the ring; nodes outside the ring keep their links. */
  lemma SpliceAppends(ch: Chain, s: seq<int>, n: int)
    requires Ring(ch, s) && Has(ch, n) && n !in s
    ensures Ring(Splice(ch, s[|s| - 1], n), s + [n])
    ensures forall y | Has(ch, y) && y !in s && y != n ::
      Splice(ch, s[|s| - 1], n).next[y] == ch.next[y] && Splice(ch, s[|s| - 1], n).prev[y] == ch.prev[y]
  {
    var x := s[|s| - 1];
    var ch' := Splice(ch, x, n);
    var s' := s + [n];
    assert ch.next[x] == s[0] && s[0] in s;
    SpliceLinks(ch, x, n);
    DistinctConcat(s, [n]);
    forall k | 0 <= k < |s'| ensures Has(ch', s'[k]) && Has(ch', ch'.next[s'[k]]) && Has(ch', ch'.prev[s'[k]]) {
      if k < |s| { assert s'[k] == s[k]; }
    }
    forall t | 0 <= t < |s'| - 1
      ensures ch'.next[s'[t]] == s'[t + 1] && ch'.prev[s'[t + 1]] == s'[t]
    {
      if t < |s| - 1 {
        assert s'[t] == s[t] && s'[t + 1] == s[t + 1];
        assert s[t] != x && s[t + 1] != s[0];
      }
    }
  }

  /** Node `x` taken out of every ring, pointing at itself: `new DancingNode`. */
  function Alone(ch: Chain, x: int): Chain
    requires Has(ch, x)
  {
    Chain(ch.next[x := x], ch.prev[x := x])
  }

  /** A fresh node spliced after itself forms a ring on its own. */
  lemma AloneRing(ch: Chain, x: int)
    requires Has(ch, x)
    ensures Ring(Splice(Alone(ch, x), x, x), [x])
  {
    SpliceSelfIsNoOp(Alone(ch, x), x);
  }

  /** A fresh node spliced after the last member of a ring joins its end. */
  lemma AloneAppends(ch: Chain, s: seq<int>, x: int)
    requires Ring(ch, s) && Has(ch, x) && x !in s
    ensures Ring(Splice(Alone(ch, x), s[|s| - 1], x), s + [x])
  {
    RingFrame(ch, Alone(ch, x), s);
    SpliceAppends(Alone(ch, x), s, x);
  }

  /** A fresh node spliced after `a`, outside ring `s`, leaves `s` alone, as long
      as the node after `a` is not in `s` either. */
  lemma AloneElsewhere(ch: Chain, s: seq<int>, a: int, x: int)
    requires Ring(ch, s) && Has(ch, a) && Has(ch, x) && a !in s && x !in s
    requires a == x || (Has(ch, ch.next[a]) && ch.next[a] !in s)
    ensures Ring(Splice(Alone(ch, x), a, x), s)
  {
    var f := Alone(ch, x);
    if a == x {
      SpliceSelfIsNoOp(f, x);
      RingFrame(ch, f, s);
    } else {
      SpliceLinks(f, a, x);
      RingFrame(ch, Splice(f, a, x), s);
    }
  }

  /** Dropping an element keeps a sequence free of repeats, and the dropped element is gone. */
  lemma WithoutDistinct(s: seq<int>, k: int)
    requires Distinct(s) && 0 <= k < |s|
    ensures Distinct(Without(s, k)) && s[k] !in Without(s, k)
    ensures forall z | z in Without(s, k) :: z in s
  {
    var s' := Without(s, k);
    forall a, b | 0 <= a < b < |s'| ensures s'[a] != s'[b] {
      var a0 := if a < k then a else a + 1;
      var b0 := if b < k then b else b + 1;
      assert s'[a] == s[a0] && s'[b] == s[b0] && a0 < b0;
    }
    forall t | 0 <= t < |s'| ensures s'[t] != s[k] && s'[t] in s {
      var t0 := if t < k then t else t + 1;
      assert s'[t] == s[t0] && t0 != k;
    }
  }

  /** In a ring, `s[k]`'s neighbours are `s[k - 1]` and the member after it. */
  lemma RingAround(ch: Chain, s: seq<int>, k: int)
    requires Ring(ch, s) && 0 < k < |s|
    ensures Has(ch, s[k]) && Has(ch, ch.next[s[k]]) && Has(ch, ch.prev[s[k]])
    ensures ch.prev[s[k]] == s[k - 1]
    ensures ch.next[s[k]] == if k + 1 < |s| then s[k + 1] else s[0]
    ensures Linked(ch, s[k])
  {
  }

  /** The links `Unlink(ch, x)` changes, and those it keeps. */
  lemma UnlinkLinks(ch: Chain, x: int)
    requires Has(ch, x) && Has(ch, ch.next[x]) && Has(ch, ch.prev[x])
    ensures Unlink(ch, x).next[ch.prev[x]] == ch.next[x] && Unlink(ch, x).prev[ch.next[x]] == ch.prev[x]
    ensures forall y | Has(ch, y) && y != ch.prev[x] :: Unlink(ch, x).next[y] == ch.next[y]
    ensures forall y | Has(ch, y) && y != ch.next[x] :: Unlink(ch, x).prev[y] == ch.prev[y]
    ensures |Unlink(ch, x).next| == |ch.next| && |Unlink(ch, x).prev| == |ch.prev|
  {
  }

  /** The links of `Unlink(ch, s[k])` along `Without(s, k)`. */
  lemma UnlinkAdjacent(ch: Chain, s: seq<int>, k: int)
    requires Ring(ch, s) && 0 < k < |s|
    ensures Has(ch, ch.next[s[k]]) && Has(ch, ch.prev[s[k]])
    ensures forall t | 0 <= t < |s| - 2 ::
      Unlink(ch, s[k]).next[Without(s, k)[t]] == Without(s, k)[t + 1] &&
      Unlink(ch, s[k]).prev[Without(s, k)[t + 1]] == Without(s, k)[t]
  {
    RingAround(ch, s, k);
    var x := s[k];
    var ch' := Unlink(ch, x);
    var s' := Without(s, k);
    var p := s[k - 1];
    var q := if k + 1 < |s| then s[k + 1] else s[0];
    forall t | 0 <= t < |s'| - 1
      ensures ch'.next[s'[t]] == s'[t + 1] && ch'.prev[s'[t + 1]] == s'[t]
    {
      if t == k - 1 {
        assert s'[t] == p && s'[t + 1] == q;
      } else if t < k - 1 {
        assert s'[t] == s[t] && s'[t + 1] == s[t + 1];
        assert s[t] != p && s[t + 1] != q;
      } else {
        assert s'[t] == s[t + 1] && s'[t + 1] == s[t + 2];
        assert s[t + 1] != p && s[t + 2] != q;
      }
    }
  }

  /** Unlinking ring member `s[k]` (not the ring's anchor `s[0]`) leaves the ring
      without it; every node other than its two neighbours keeps its links, and
      so does `s[k]` itself. */
  lemma UnlinkRemoves(ch: Chain, s: seq<int>, k: int)
    requires Ring(ch, s) && 0 < k < |s|
    ensures Ring(Unlink(ch, s[k]), Without(s, k))
    ensures Linked(ch, s[k])
    ensures Unlink(ch, s[k]).next[s[k]] == ch.next[s[k]] && Unlink(ch, s[k]).prev[s[k]] == ch.prev[s[k]]
    ensures forall y | Has(ch, y) && y !in s ::
      Unlink(ch, s[k]).next[y] == ch.next[y] && Unlink(ch, s[k]).prev[y] == ch.prev[y]
  {
    RingAround(ch, s, k);
    WithoutDistinct(s, k);
    UnlinkAdjacent(ch, s, k);
    UnlinkLinks(ch, s[k]);
    var x := s[k];
    var ch' := Unlink(ch, x);
    var s' := Without(s, k);
    var p := s[k - 1];
    var q := if k + 1 < |s| then s[k + 1] else s[0];
    assert p in s && q in s;
    forall t | 0 <= t < |s'| ensures Has(ch', s'[t]) && Has(ch', ch'.next[s'[t]]) && Has(ch', ch'.prev[s'[t]]) {
      assert s'[t] in s;
    }
    if k == |s| - 1 {
      assert s'[|s'| - 1] == p && q == s[0];
    } else {
      assert s'[|s'| - 1] == s[|s| - 1] && s[|s| - 1] != p;
      assert s[0] != q;
    }
  }

  /** Relinking a node straight after unlinking it restores both directions exactly,
      provided the node was linked to begin with. */
  lemma RelinkUndoesUnlink(ch: Chain, x: int)
    requires Has(ch, x) && Has(ch, ch.next[x]) && Has(ch, ch.prev[x])
    requires Linked(ch, x)
    ensures Has(Unlink(ch, x), x)
    ensures Unlink(ch, x).next[x] == ch.next[x] && Unlink(ch, x).prev[x] == ch.prev[x]
    ensures Relink(Unlink(ch, x), x) == ch
  {
    var u := Unlink(ch, x);
    assert u.next[x] == ch.next[x];
    assert u.prev[x] == ch.prev[x];
    assert u.next[ch.prev[x] := x] == ch.next;
    assert u.prev[ch.next[x] := x] == ch.prev;
  }

  /** Element `t` of the rotation `s[p..] + s[..p]`. */
  lemma RotateAt(s: seq<int>, p: int)
    requires 0 <= p < |s|
    ensures |s[p..] + s[..p]| == |s|
    ensures forall t | 0 <= t < |s| :: (s[p..] + s[..p])[t] == s[if t < |s| - p then t + p else t + p - |s|]
  {
  }

  lemma RotateDistinct(s: seq<int>, p: int)
    requires Distinct(s) && 0 <= p < |s|
    ensures Distinct(s[p..] + s[..p])
  {
    var s' := s[p..] + s[..p];
    RotateAt(s, p);
    forall a, b | 0 <= a < b < |s'| ensures s'[a] != s'[b] {
      var a0 := if a < |s| - p then a + p else a + p - |s|;
      var b0 := if b < |s| - p then b + p else b + p - |s|;
      assert s'[a] == s[a0] && s'[b] == s[b0] && a0 != b0;
      if a0 < b0 { assert s[a0] != s[b0]; } else { assert s[b0] != s[a0]; }
    }
  }

  /** A rotation has the same members. */
  lemma RotateMembers(s: seq<int>, p: int)
    requires 0 <= p < |s|
    ensures forall z :: z in s[p..] + s[..p] <==> z in s
  {
    assert s == s[..p] + s[p..];
  }

  /** Every rotation of a ring lists the same ring, starting from another member. */
  lemma RotateRing(ch: Chain, s: seq<int>, p: int)
    requires Ring(ch, s) && 0 <= p < |s|
    ensures Ring(ch, s[p..] + s[..p])
  {
    var s' := s[p..] + s[..p];
    RotateAt(s, p);
    RotateDistinct(s, p);
    forall t | 0 <= t < |s'| - 1 ensures ch.next[s'[t]] == s'[t + 1] && ch.prev[s'[t + 1]] == s'[t] {
      if t + p + 1 < |s| {
        assert s'[t] == s[t + p] && s'[t + 1] == s[t + p + 1];
      } else if t + p + 1 == |s| {
        assert s'[t] == s[|s| - 1] && s'[t + 1] == s[0];
      } else {
        assert s'[t] == s[t + p - |s|] && s'[t + 1] == s[t + p + 1 - |s|];
      }
    }
    forall t | 0 <= t < |s'| ensures Has(ch, s'[t]) && Has(ch, ch.next[s'[t]]) && Has(ch, ch.prev[s'[t]]) {
      var t0 := if t < |s| - p then t + p else t + p - |s|;
      assert s'[t] == s[t0];
    }
    if p == 0 {
      assert s'[|s'| - 1] == s[|s| - 1] && s'[0] == s[0];
    } else {
      assert s'[|s'| - 1] == s[p - 1] && s'[0] == s[p];
    }
  }

  /** A ring stays a ring when the links of its members are unchanged. */
  lemma RingFrame(ch: Chain, ch': Chain, s: seq<int>)
    requires Ring(ch, s)
    requires forall x | x in s :: Has(ch', x) && ch'.next[x] == ch.next[x] && ch'.prev[x] == ch.prev[x]
    ensures Ring(ch', s)
  {
    forall k | 0 <= k < |s|
      ensures Has(ch', s[k]) && Has(ch', ch'.next[s[k]]) && Has(ch', ch'.prev[s[k]])
    {
      assert s[k] in s;
      var a := if k + 1 < |s| then k + 1 else 0;
      var b := if k > 0 then k - 1 else |s| - 1;
      assert ch.next[s[k]] == s[a] && s[a] in s;
      assert ch.prev[s[k]] == s[b] && s[b] in s;
    }
    forall k | 0 <= k < |s| - 1 ensures ch'.next[s[k]] == s[k + 1] && ch'.prev[s[k + 1]] == s[k] {
      assert s[k] in s && s[k + 1] in s;
    }
    assert s[0] in s && s[|s| - 1] in s;
  }

  lemma DistinctConcat(a: seq<int>, b: seq<int>)
    requires Distinct(a) && Distinct(b) && forall z | z in a :: z !in b
    ensures Distinct(a + b)
  {
    forall x, y | 0 <= x < y < |a + b| ensures (a + b)[x] != (a + b)[y] {
      if y < |a| {
      } else if x >= |a| {
        assert (a + b)[x] == b[x - |a|] && (a + b)[y] == b[y - |a|];
      } else {
        assert (a + b)[x] == a[x] && a[x] in a;
        assert (a + b)[y] == b[y - |a|];
      }
    }
  }

  lemma DistinctTail(h: int, s: seq<int>)
    requires Distinct([h] + s)
    ensures Distinct(s) && h !in s
  {
    forall a, b | 0 <= a < b < |s| ensures s[a] != s[b] {
      assert ([h] + s)[a + 1] == s[a] && ([h] + s)[b + 1] == s[b];
    }
    forall t | 0 <= t < |s| ensures s[t] != h {
      assert ([h] + s)[t + 1] == s[t] && ([h] + s)[0] == h;
    }
  }

  lemma DistinctInit(s: seq<int>)
    requires Distinct(s) && s != []
    ensures Distinct(s[..|s| - 1]) && s[|s| - 1] !in s[..|s| - 1]
  {
  }

  lemma PrefixOf(s: seq<int>, t: int)
    requires Distinct(s) && 0 <= t <= |s|
    ensures Distinct(s[..t]) && forall z | z in s[..t] :: z in s
  {
    if t < |s| { DistinctPrefix(s, t); } else { assert s[..t] == s; }
  }

  lemma DistinctPrefix(s: seq<int>, p: int)
    requires Distinct(s) && 0 <= p < |s|
    ensures Distinct(s[..p]) && s[p] !in s[..p]
  {
  }

  /** Walking a ring `[i] + o` to the right from `o[q]` reaches the next entry, or `i` after the last. */
  lemma RingNext(ch: Chain, i: int, o: seq<int>, q: int)
    requires RingFrom(ch, i, o) && 0 <= q < |o|
    ensures Has(ch, o[q]) && ch.next[o[q]] == if q + 1 < |o| then o[q + 1] else i
    ensures Has(ch, o[q]) && ch.prev[o[q]] == if q == 0 then i else o[q - 1]
  {
    var s := [i] + o;
    assert s[q + 1] == o[q] && s[0] == i;
    if q + 1 < |o| { assert s[q + 2] == o[q + 1]; }
    if q > 0 { assert s[q] == o[q - 1]; }
  }

  /** The neighbours of the first member `i` of a ring `[i] + o`. */
  lemma RingFirst(ch: Chain, i: int, o: seq<int>)
    requires RingFrom(ch, i, o)
    ensures ch.next[i] == if o == [] then i else o[0]
    ensures ch.prev[i] == if o == [] then i else o[|o| - 1]
    ensures Distinct(o) && i !in o
  {
    DistinctTail(i, o);
    var s := [i] + o;
    assert s[0] == i;
    if o != [] { assert s[1] == o[0] && s[|s| - 1] == o[|o| - 1]; }
  }
}
