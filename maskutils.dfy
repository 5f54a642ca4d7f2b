/**
 * The binary-mask algorithms of `MaskUtils` (docs/js/maskutils.js): the
 * tolerance mask of a colour and its complementary count, 8-connected
 * component labelling with an explicit stack, inner edges, the brush-width
 * search, the path building of the loop tracer, and the stripes that fill a
 * mask row by row or column by column.
 *
 * Masks and label grids of shape [width, height] are flat arrays read at
 * `Idx(x, y, height)`, as ndarray lays them out.
 */
module Masks {
  import opened Common

  /** Label of a pixel no labelling pass has reached yet. */
  const UNVISITED: int := -1
  /** Label of a pixel outside every component. */
  const EMPTY: int := 0
  /** `DecomposeModel.MAX_W`: the brush widths tried are 2 .. MAX_W - 1. */
  const MAX_W: int := 21

  // ---------------------------------------------------------------- grid access

  predicate InGrid(c: Coord, w: int, h: int)
  {
    0 <= c.0 < w && 0 <= c.1 < h
  }

  /** `arr.get(x, y)` on the flat data of a [w, h] grid. */
  function Get(s: seq<int>, c: Coord, h: int): int
  {
    var i := Idx(c.0, c.1, h);
    if 0 <= i < |s| then s[i] else 0
  }

  /** `arr.set(x, y, v)` on the flat data of a [w, h] grid. */
  function Set(s: seq<int>, c: Coord, h: int, v: int): (r: seq<int>)
    ensures |r| == |s|
  {
    var i := Idx(c.0, c.1, h);
    if 0 <= i < |s| then s[i := v] else s
  }

  /** Writing one cell of the grid changes that cell only. */
  lemma GetSet(s: seq<int>, c: Coord, q: Coord, v: int, w: int, h: int)
    requires |s| == w * h && InGrid(c, w, h) && InGrid(q, w, h)
    ensures Get(Set(s, c, h, v), q, h) == if q == c then v else Get(s, q, h)
  {
    IdxInRange(c.0, c.1, w, h);
    IdxInRange(q.0, q.1, w, h);
    if q != c && Idx(q.0, q.1, h) == Idx(c.0, c.1, h) {
      IdxInjective(q.0, q.1, c.0, c.1, h);
    }
  }

  /** Every cell of the grid reads its own position of the data. */
  lemma GetInRange(s: seq<int>, c: Coord, w: int, h: int)
    requires |s| == w * h && InGrid(c, w, h)
    ensures 0 <= Idx(c.0, c.1, h) < |s| && Get(s, c, h) == s[Idx(c.0, c.1, h)]
  {
    IdxInRange(c.0, c.1, w, h);
  }

  // ---------------------------------------------------------------- adjacency

  function Abs(n: int): nat
  {
    if n < 0 then -n else n
  }

  /** `_Tracer.isAdjacent`: distinct points at most one step apart on each axis. */
  predicate IsAdjacent(a: Coord, b: Coord)
  {
    var dx := a.0 - b.0;
    var dy := a.1 - b.1;
    if !(dx == 0 && dy == 0) then Abs(dx) <= 1 && Abs(dy) <= 1 else false
  }

  /** No point is adjacent to itself, and adjacency goes both ways. */
  lemma AdjacencySymmetric(a: Coord, b: Coord)
    ensures !IsAdjacent(a, a)
    ensures IsAdjacent(a, b) <==> IsAdjacent(b, a)
  {
  }

  // ---------------------------------------------------------------- labelling

  /** A cell the labelling still has to take: nonzero in the mask and unvisited. */
  predicate Open(labs: seq<int>, a: seq<int>, q: Coord, h: int)
  {
    Get(a, q, h) != 0 && Get(labs, q, h) == UNVISITED
  }

  /** `pushIfValidMut` applied to one cell: the cell if it is open. */
  function Keep(labs: seq<int>, a: seq<int>, q: Coord, h: int): seq<Coord>
  {
    if Open(labs, a, q, h) then [q] else []
  }

  /** The k-th neighbour of c in the order `labelComponentMut` tries them: N, NE, E, SE, S, SW, W, NW. */
  function Neighbour(c: Coord, k: int): Coord
    requires 0 <= k < 8
  {
    var (x, y) := c;
    if k == 0 then (x, y - 1) else if k == 1 then (x + 1, y - 1)
    else if k == 2 then (x + 1, y) else if k == 3 then (x + 1, y + 1)
    else if k == 4 then (x, y + 1) else if k == 5 then (x - 1, y + 1)
    else if k == 6 then (x - 1, y) else (x - 1, y - 1)
  }

  /** The neighbours are exactly the points adjacent to c. */
  lemma NeighboursAdjacent(c: Coord, q: Coord)
    ensures IsAdjacent(c, q) <==> exists k :: 0 <= k < 8 && q == Neighbour(c, k)
  {
    if IsAdjacent(c, q) {
      var d := (q.0 - c.0, q.1 - c.1);
      var k := if d == (0, -1) then 0 else if d == (1, -1) then 1 else if d == (1, 0) then 2
        else if d == (1, 1) then 3 else if d == (0, 1) then 4 else if d == (-1, 1) then 5
        else if d == (-1, 0) then 6 else 7;
      assert q == Neighbour(c, k);
    }
  }

  /**
   * What the first k guarded `pushIfValidMut` calls of `labelComponentMut`
   * push for the cell c: each neighbour in turn, when it lies inside the
   * grid and is open.
   */
  function Pushes(labs: seq<int>, a: seq<int>, c: Coord, w: int, h: int, k: nat): seq<Coord>
    requires k <= 8
  {
    if k == 0 then []
    else
      var q := Neighbour(c, k - 1);
      Pushes(labs, a, c, w, h, k - 1) + if InGrid(q, w, h) then Keep(labs, a, q, h) else []
  }

  /** The cells pushed by the first k calls are the open neighbours among the first k. */
  lemma {:induction false} PushesHas(labs: seq<int>, a: seq<int>, c: Coord, w: int, h: int, k: nat, q: Coord)
    requires k <= 8
    ensures q in Pushes(labs, a, c, w, h, k)
        <==> InGrid(q, w, h) && Open(labs, a, q, h) && exists j :: 0 <= j < k && q == Neighbour(c, j)
  {
    if k > 0 {
      PushesHas(labs, a, c, w, h, k - 1, q);
    }
  }

  /** All eight calls push exactly the open 8-neighbours of c inside the grid. */
  lemma OpenNeighboursExact(labs: seq<int>, a: seq<int>, c: Coord, w: int, h: int, q: Coord)
    ensures q in Pushes(labs, a, c, w, h, 8) <==> InGrid(q, w, h) && IsAdjacent(c, q) && Open(labs, a, q, h)
  {
    PushesHas(labs, a, c, w, h, 8, q);
    NeighboursAdjacent(c, q);
  }

  // ---------------------------------------------------------------- invariants of the labelling stack

  /**
   * From the old to the new label grid, only unvisited nonzero cells change,
   * and they change to `lab`.
   */
  predicate Recoloured(o: seq<int>, cur: seq<int>, a: seq<int>, lab: int)
  {
    |cur| == |o| == |a|
    && forall i :: 0 <= i < |cur| ==> cur[i] == o[i] || (o[i] == UNVISITED && a[i] != 0 && cur[i] == lab)
  }

  /** Every stacked cell is a nonzero cell of the grid that was unvisited and is unvisited or labelled `lab`. */
  predicate StackOk(stack: seq<Coord>, o: seq<int>, cur: seq<int>, a: seq<int>, lab: int, w: int, h: int)
  {
    forall k :: 0 <= k < |stack| ==>
      InGrid(stack[k], w, h) && Get(a, stack[k], h) != 0 && Get(o, stack[k], h) == UNVISITED
      && (Get(cur, stack[k], h) == UNVISITED || Get(cur, stack[k], h) == lab)
  }

  /**
   * A stacked cell that is already labelled has each of its open neighbours
   * stacked above it: popping it again pushes nothing.
   */
  ghost predicate Pending(stack: seq<Coord>, cur: seq<int>, a: seq<int>, w: int, h: int)
  {
    forall k :: 0 <= k < |stack| && Get(cur, stack[k], h) != UNVISITED ==>
      forall q :: InGrid(q, w, h) && IsAdjacent(stack[k], q) && Open(cur, a, q, h) ==> q in stack[k + 1..]
  }

  /** Every open neighbour of a cell labelled by this pass is on the stack. */
  ghost predicate Frontier(stack: seq<Coord>, o: seq<int>, cur: seq<int>, a: seq<int>, lab: int, w: int, h: int)
  {
    forall p :: InGrid(p, w, h) && Get(o, p, h) == UNVISITED && Get(cur, p, h) == lab ==>
      forall q :: InGrid(q, w, h) && IsAdjacent(p, q) && Open(cur, a, q, h) ==> q in stack
  }

  /** No nonzero neighbour of a cell labelled by this pass is left unvisited. */
  ghost predicate Closed(o: seq<int>, cur: seq<int>, a: seq<int>, lab: int, w: int, h: int)
  {
    forall p :: InGrid(p, w, h) && Get(o, p, h) == UNVISITED && Get(cur, p, h) == lab ==>
      forall q :: InGrid(q, w, h) && IsAdjacent(p, q) && Get(a, q, h) != 0 ==> Get(cur, q, h) != UNVISITED
  }

  /** With the stack empty, the frontier says the labelled cells are closed under adjacency. */
  lemma EmptyFrontierClosed(o: seq<int>, cur: seq<int>, a: seq<int>, lab: int, w: int, h: int)
    requires Frontier([], o, cur, a, lab, w, h)
    ensures Closed(o, cur, a, lab, w, h)
  {
  }

  /** Popping a cell labelled before pushes nothing and leaves the grid as it is. */
  lemma PopLabelled(stack: seq<Coord>, o: seq<int>, cur: seq<int>, a: seq<int>, lab: int, w: int, h: int)
    requires |stack| > 0 && |cur| == w * h
    requires StackOk(stack, o, cur, a, lab, w, h) && Pending(stack, cur, a, w, h)
    requires Get(cur, stack[|stack| - 1], h) != UNVISITED
    ensures Pushes(cur, a, stack[|stack| - 1], w, h, 8) == []
    ensures Set(cur, stack[|stack| - 1], h, lab) == cur
  {
    var t := stack[|stack| - 1];
    var P := Pushes(cur, a, t, w, h, 8);
    if P != [] {
      OpenNeighboursExact(cur, a, t, w, h, P[0]);
      assert false;
    }
    GetInRange(cur, t, w, h);
  }

  /** The invariants survive popping a cell labelled before. */
  lemma PopLabelledKeeps(stack: seq<Coord>, o: seq<int>, cur: seq<int>, a: seq<int>, lab: int, w: int, h: int)
    requires |stack| > 0 && |cur| == w * h
    requires StackOk(stack, o, cur, a, lab, w, h) && Pending(stack, cur, a, w, h)
    requires Frontier(stack, o, cur, a, lab, w, h)
    requires Get(cur, stack[|stack| - 1], h) != UNVISITED
    ensures var t := stack[|stack| - 1];
      var next, cur' := stack[..|stack| - 1] + Pushes(cur, a, t, w, h, 8), Set(cur, t, h, lab);
      StackOk(next, o, cur', a, lab, w, h) && Pending(next, cur', a, w, h) && Frontier(next, o, cur', a, lab, w, h)
  {
    var n := |stack| - 1;
    var r := stack[..n];
    PopLabelled(stack, o, cur, a, lab, w, h);
    assert r + Pushes(cur, a, stack[n], w, h, 8) == r;
    forall k, q | 0 <= k < n && Get(cur, r[k], h) != UNVISITED
      && InGrid(q, w, h) && IsAdjacent(r[k], q) && Open(cur, a, q, h)
      ensures q in r[k + 1..]
    {
      assert q in stack[k + 1..];
      assert q != stack[n];
      assert stack[k + 1..] == r[k + 1..] + [stack[n]];
    }
    forall p, q | InGrid(p, w, h) && Get(o, p, h) == UNVISITED && Get(cur, p, h) == lab
      && InGrid(q, w, h) && IsAdjacent(p, q) && Open(cur, a, q, h)
      ensures q in r
    {
      assert q in stack;
      assert stack == r + [stack[n]];
    }
  }

  /** Writing one cell, seen from every cell of the grid. */
  lemma GetSetAll(s: seq<int>, c: Coord, v: int, w: int, h: int)
    requires |s| == w * h && InGrid(c, w, h)
    ensures forall q :: InGrid(q, w, h) ==> Get(Set(s, c, h, v), q, h) == if q == c then v else Get(s, q, h)
  {
    forall q | InGrid(q, w, h)
      ensures Get(Set(s, c, h, v), q, h) == if q == c then v else Get(s, q, h)
    {
      GetSet(s, c, q, v, w, h);
    }
  }

  /** Labelling a fresh cell keeps the recolouring and moves one cell from unvisited to `lab`. */
  lemma PopFreshCounts(t: Coord, o: seq<int>, cur: seq<int>, a: seq<int>, lab: int, w: int, h: int)
    requires |cur| == w * h && InGrid(t, w, h) && lab != UNVISITED
    requires Recoloured(o, cur, a, lab)
    requires Get(a, t, h) != 0 && Get(o, t, h) == UNVISITED && Get(cur, t, h) == UNVISITED
    ensures Recoloured(o, Set(cur, t, h, lab), a, lab)
    ensures CountEq(Set(cur, t, h, lab), UNVISITED) == CountEq(cur, UNVISITED) - 1
    ensures CountEq(Set(cur, t, h, lab), lab) == CountEq(cur, lab) + 1
  {
    var i := Idx(t.0, t.1, h);
    GetInRange(cur, t, w, h);
    GetInRange(o, t, w, h);
    GetInRange(a, t, w, h);
    CountEqUpdate(cur, i, lab, UNVISITED);
    CountEqUpdate(cur, i, lab, lab);
  }

  /** What labelling the fresh top cell t means for the cells it pushes. */
  lemma PushedAreFresh(t: Coord, cur: seq<int>, a: seq<int>, lab: int, w: int, h: int)
    requires |cur| == w * h && InGrid(t, w, h)
    ensures forall q :: q in Pushes(cur, a, t, w, h, 8) ==>
      InGrid(q, w, h) && IsAdjacent(t, q) && Open(cur, a, q, h) && Get(Set(cur, t, h, lab), q, h) == UNVISITED
  {
    GetSetAll(cur, t, lab, w, h);
    forall q | q in Pushes(cur, a, t, w, h, 8)
      ensures InGrid(q, w, h) && IsAdjacent(t, q) && Open(cur, a, q, h)
    {
      OpenNeighboursExact(cur, a, t, w, h, q);
    }
  }

  /** Labelling a fresh cell and pushing its open neighbours keeps every stacked cell a fresh or `lab` cell. */
  lemma PopFreshStackOk(stack: seq<Coord>, o: seq<int>, cur: seq<int>, a: seq<int>, lab: int, w: int, h: int)
    requires |stack| > 0 && |cur| == w * h && |o| == w * h && lab != UNVISITED
    requires Recoloured(o, cur, a, lab) && StackOk(stack, o, cur, a, lab, w, h)
    ensures var t := stack[|stack| - 1];
      StackOk(stack[..|stack| - 1] + Pushes(cur, a, t, w, h, 8), o, Set(cur, t, h, lab), a, lab, w, h)
  {
    var n := |stack| - 1;
    var t := stack[n];
    var P := Pushes(cur, a, t, w, h, 8);
    var next := stack[..n] + P;
    var cur' := Set(cur, t, h, lab);
    GetSetAll(cur, t, lab, w, h);
    PushedAreFresh(t, cur, a, lab, w, h);
    forall k | 0 <= k < |next|
      ensures InGrid(next[k], w, h) && Get(a, next[k], h) != 0 && Get(o, next[k], h) == UNVISITED
        && (Get(cur', next[k], h) == UNVISITED || Get(cur', next[k], h) == lab)
    {
      if k >= n {
        var q := next[k];
        assert q in P;
        GetInRange(cur, q, w, h);
        GetInRange(o, q, w, h);
      }
    }
  }

  /** Labelling a fresh cell and pushing its open neighbours keeps the open neighbours of labelled stacked cells above them. */
  lemma PopFreshPending(stack: seq<Coord>, cur: seq<int>, a: seq<int>, lab: int, w: int, h: int)
    requires |stack| > 0 && |cur| == w * h && lab != UNVISITED
    requires forall k :: 0 <= k < |stack| ==> InGrid(stack[k], w, h)
    requires Pending(stack, cur, a, w, h)
    ensures var t := stack[|stack| - 1];
      Pending(stack[..|stack| - 1] + Pushes(cur, a, t, w, h, 8), Set(cur, t, h, lab), a, w, h)
  {
    var n := |stack| - 1;
    var t := stack[n];
    var P := Pushes(cur, a, t, w, h, 8);
    var next := stack[..n] + P;
    var cur' := Set(cur, t, h, lab);
    GetSetAll(cur, t, lab, w, h);
    PushedAreFresh(t, cur, a, lab, w, h);
    forall k, q | 0 <= k < |next| && Get(cur', next[k], h) != UNVISITED
      && InGrid(q, w, h) && IsAdjacent(next[k], q) && Open(cur', a, q, h)
      ensures q in next[k + 1..]
    {
      if k >= n {
        assert false;
      }
      assert Open(cur, a, q, h) && q != t;
      if next[k] == t {
        OpenNeighboursExact(cur, a, t, w, h, q);
        assert next[k + 1..] == stack[k + 1..n] + P;
      } else {
        assert q in stack[k + 1..];
        assert stack[k + 1..] == stack[k + 1..n] + [t];
        assert next[k + 1..] == stack[k + 1..n] + P;
      }
    }
  }

  /** Labelling a fresh cell and pushing its open neighbours keeps every open neighbour of a labelled cell stacked. */
  lemma PopFreshFrontier(stack: seq<Coord>, o: seq<int>, cur: seq<int>, a: seq<int>, lab: int, w: int, h: int)
    requires |stack| > 0 && |cur| == w * h && lab != UNVISITED
    requires InGrid(stack[|stack| - 1], w, h) && Frontier(stack, o, cur, a, lab, w, h)
    ensures var t := stack[|stack| - 1];
      Frontier(stack[..|stack| - 1] + Pushes(cur, a, t, w, h, 8), o, Set(cur, t, h, lab), a, lab, w, h)
  {
    var n := |stack| - 1;
    var t := stack[n];
    var P := Pushes(cur, a, t, w, h, 8);
    var next := stack[..n] + P;
    var cur' := Set(cur, t, h, lab);
    GetSetAll(cur, t, lab, w, h);
    forall p, q | InGrid(p, w, h) && Get(o, p, h) == UNVISITED && Get(cur', p, h) == lab
      && InGrid(q, w, h) && IsAdjacent(p, q) && Open(cur', a, q, h)
      ensures q in next
    {
      assert Open(cur, a, q, h) && q != t;
      if p == t {
        OpenNeighboursExact(cur, a, t, w, h, q);
      } else {
        assert q in stack;
        assert stack == stack[..n] + [t];
      }
    }
  }

  // ---------------------------------------------------------------- 8-connectivity

  /** A walk through the mask: nonzero cells of the grid, each 8-adjacent to the one before. */
  ghost predicate Walk(p: seq<Coord>, a: seq<int>, w: int, h: int)
  {
    |p| >= 1 && Chain(p) && forall i :: 0 <= i < |p| ==> InGrid(p[i], w, h) && Get(a, p[i], h) != 0
  }

  /** s and q are 8-connected through nonzero cells of the mask `a`. */
  ghost predicate Connected(a: seq<int>, s: Coord, q: Coord, w: int, h: int)
  {
    exists p :: Walk(p, a, w, h) && p[0] == s && p[|p| - 1] == q
  }

  /** A nonzero cell is connected to itself, and only nonzero cells of the grid are connected to anything. */
  lemma ConnectedCells(a: seq<int>, s: Coord, q: Coord, w: int, h: int)
    ensures Connected(a, s, s, w, h) <== InGrid(s, w, h) && Get(a, s, h) != 0
    ensures Connected(a, s, q, w, h) ==>
      InGrid(s, w, h) && Get(a, s, h) != 0 && InGrid(q, w, h) && Get(a, q, h) != 0
  {
    if InGrid(s, w, h) && Get(a, s, h) != 0 {
      assert Walk([s], a, w, h);
    }
    if Connected(a, s, q, w, h) {
      var r :| Walk(r, a, w, h) && r[0] == s && r[|r| - 1] == q;
      assert r[|r| - 1] == q;
    }
  }

  /** A walk to p extends to a nonzero neighbour of p. */
  lemma ConnectedStep(a: seq<int>, s: Coord, p: Coord, q: Coord, w: int, h: int)
    requires Connected(a, s, p, w, h) && InGrid(q, w, h) && Get(a, q, h) != 0 && IsAdjacent(p, q)
    ensures Connected(a, s, q, w, h)
  {
    var r :| Walk(r, a, w, h) && r[0] == s && r[|r| - 1] == p;
    ChainSnoc(r, q);
    assert Walk(r + [q], a, w, h);
  }

  /** A walk can be taken backwards. */
  lemma ConnectedSymmetric(a: seq<int>, s: Coord, q: Coord, w: int, h: int)
    requires Connected(a, s, q, w, h)
    ensures Connected(a, q, s, w, h)
  {
    var r :| Walk(r, a, w, h) && r[0] == s && r[|r| - 1] == q;
    var n := |r|;
    var v := seq(n, i requires 0 <= i < n => r[n - 1 - i]);
    forall i | 0 < i < n
      ensures IsAdjacent(v[i - 1], v[i])
    {
      assert IsAdjacent(r[n - i - 1], r[n - i]);
      AdjacencySymmetric(r[n - i - 1], r[n - i]);
    }
    assert Walk(v, a, w, h);
  }

  /** Two walks meeting at p join into one. */
  lemma ConnectedTransitive(a: seq<int>, s: Coord, p: Coord, q: Coord, w: int, h: int)
    requires Connected(a, s, p, w, h) && Connected(a, p, q, w, h)
    ensures Connected(a, s, q, w, h)
  {
    var r1 :| Walk(r1, a, w, h) && r1[0] == s && r1[|r1| - 1] == p;
    var r2 :| Walk(r2, a, w, h) && r2[0] == p && r2[|r2| - 1] == q;
    var r := r1 + r2[1..];
    forall i | 0 < i < |r|
      ensures IsAdjacent(r[i - 1], r[i])
    {
      if i == |r1| {
        assert r[i - 1] == r2[0] && r[i] == r2[1];
      } else if i > |r1| {
        assert r[i - 1] == r2[i - |r1|] && r[i] == r2[i - |r1| + 1];
      }
    }
    assert Walk(r, a, w, h);
    if |r2| == 1 {
      assert r[|r| - 1] == r1[|r1| - 1];
    } else {
      assert r[|r| - 1] == r2[|r2| - 1];
    }
  }

  /**
   * Every stacked cell, and every cell labelled `lab` by this pass (unvisited
   * in `o`), is connected to the seed s.
   */
  ghost predicate Reached(stack: seq<Coord>, o: seq<int>, cur: seq<int>, a: seq<int>, lab: int, s: Coord, w: int, h: int)
  {
    (forall k :: 0 <= k < |stack| ==> Connected(a, s, stack[k], w, h))
    && forall p :: InGrid(p, w, h) && Get(o, p, h) == UNVISITED && Get(cur, p, h) == lab ==> Connected(a, s, p, w, h)
  }

  /**
   * One step of the labelling keeps everything it touches connected to the
   * seed: the popped cell was stacked, and what it pushes are its nonzero
   * neighbours.
   */
  lemma PopReached(stack: seq<Coord>, o: seq<int>, cur: seq<int>, a: seq<int>, lab: int, s: Coord, w: int, h: int)
    requires |stack| > 0 && |cur| == w * h && InGrid(stack[|stack| - 1], w, h)
    requires Reached(stack, o, cur, a, lab, s, w, h)
    ensures var t := stack[|stack| - 1];
      Reached(stack[..|stack| - 1] + Pushes(cur, a, t, w, h, 8), o, Set(cur, t, h, lab), a, lab, s, w, h)
  {
    var n := |stack| - 1;
    var t := stack[n];
    var P := Pushes(cur, a, t, w, h, 8);
    var next := stack[..n] + P;
    var cur' := Set(cur, t, h, lab);
    GetSetAll(cur, t, lab, w, h);
    PushedAreFresh(t, cur, a, lab, w, h);
    assert Connected(a, s, t, w, h);
    forall k | 0 <= k < |next|
      ensures Connected(a, s, next[k], w, h)
    {
      if k >= n {
        assert next[k] in P;
        ConnectedStep(a, s, t, next[k], w, h);
      } else {
        assert next[k] == stack[k];
      }
    }
  }

  /** The invariants of the `labelComponentMut` loop, from the seed s. */
  ghost predicate Labelling(stack: seq<Coord>, o: seq<int>, cur: seq<int>, a: seq<int>, lab: int, s: Coord, w: int, h: int)
  {
    Recoloured(o, cur, a, lab) && StackOk(stack, o, cur, a, lab, w, h) && Pending(stack, cur, a, w, h)
    && Frontier(stack, o, cur, a, lab, w, h) && Reached(stack, o, cur, a, lab, s, w, h)
  }

  /**
   * One pop of `labelComponentMut` keeps the loop invariants: a fresh cell
   * moves from unvisited to `lab`; a cell labelled before changes nothing
   * and pushes nothing.
   */
  lemma PopStep(stack: seq<Coord>, o: seq<int>, cur: seq<int>, a: seq<int>, lab: int, s: Coord, w: int, h: int)
    requires |stack| > 0 && |cur| == w * h && lab != UNVISITED
    requires Labelling(stack, o, cur, a, lab, s, w, h)
    ensures var t := stack[|stack| - 1];
      var P, cur' := Pushes(cur, a, t, w, h, 8), Set(cur, t, h, lab);
      Labelling(stack[..|stack| - 1] + P, o, cur', a, lab, s, w, h)
      && if Get(cur, t, h) == UNVISITED then
           CountEq(cur', UNVISITED) == CountEq(cur, UNVISITED) - 1 && CountEq(cur', lab) == CountEq(cur, lab) + 1
         else cur' == cur && P == []
  {
    var t := stack[|stack| - 1];
    PopReached(stack, o, cur, a, lab, s, w, h);
    if Get(cur, t, h) == UNVISITED {
      PopFreshCounts(t, o, cur, a, lab, w, h);
      PopFreshStackOk(stack, o, cur, a, lab, w, h);
      PopFreshPending(stack, cur, a, lab, w, h);
      PopFreshFrontier(stack, o, cur, a, lab, w, h);
    } else {
      PopLabelled(stack, o, cur, a, lab, w, h);
      PopLabelledKeeps(stack, o, cur, a, lab, w, h);
    }
  }

  /** Cells of one label are connected to each other. */
  ghost predicate LabelsConnected(labs: seq<int>, a: seq<int>, w: int, h: int)
  {
    forall p, q :: InGrid(p, w, h) && InGrid(q, w, h) && Get(labs, p, h) >= 1 && Get(labs, q, h) == Get(labs, p, h)
      ==> Connected(a, p, q, w, h)
  }

  /**
   * Labelling one more component with a label no cell held before, every
   * new cell connected to one seed, keeps each label's cells connected.
   */
  lemma LabelKeepsConnected(o: seq<int>, cur: seq<int>, a: seq<int>, lab: int, s: Coord, w: int, h: int)
    requires |cur| == w * h && lab >= 1 && Recoloured(o, cur, a, lab) && LabelsConnected(o, a, w, h)
    requires forall p :: InGrid(p, w, h) ==> Get(o, p, h) != lab
    requires forall p :: InGrid(p, w, h) && Get(o, p, h) == UNVISITED && Get(cur, p, h) == lab ==> Connected(a, s, p, w, h)
    ensures LabelsConnected(cur, a, w, h)
  {
    forall p, q | InGrid(p, w, h) && InGrid(q, w, h) && Get(cur, p, h) >= 1 && Get(cur, q, h) == Get(cur, p, h)
      ensures Connected(a, p, q, w, h)
    {
      RecolouredAt(o, cur, a, lab, p, w, h);
      RecolouredAt(o, cur, a, lab, q, w, h);
      if Get(cur, p, h) == lab {
        ConnectedSymmetric(a, s, p, w, h);
        ConnectedTransitive(a, p, s, q, w, h);
      }
    }
  }

  /** A write of a value below 1 keeps each label's cells connected. */
  lemma NonLabelWriteKeepsConnected(out: seq<int>, a: seq<int>, i: int, v: int, w: int, h: int)
    requires |out| == w * h && 0 <= i < |out| && v < 1 && LabelsConnected(out, a, w, h)
    ensures LabelsConnected(out[i := v], a, w, h)
  {
    forall p | InGrid(p, w, h) && Get(out[i := v], p, h) >= 1
      ensures Get(out[i := v], p, h) == Get(out, p, h)
    {
      GetInRange(out, p, w, h);
    }
  }

  /** Along a walk through labelled cells whose labels are closed under adjacency, the label never changes. */
  lemma {:induction false} WalkSameLabel(labs: seq<int>, a: seq<int>, r: seq<Coord>, w: int, h: int)
    requires Walk(r, a, w, h) && LabelsClosed(labs, a, w, h)
    requires forall p :: InGrid(p, w, h) && Get(a, p, h) != 0 ==> Get(labs, p, h) >= 1
    ensures Get(labs, r[0], h) == Get(labs, r[|r| - 1], h)
    decreases |r|
  {
    if |r| > 1 {
      var init := r[..|r| - 1];
      assert Walk(init, a, w, h);
      WalkSameLabel(labs, a, init, w, h);
      assert IsAdjacent(r[|r| - 2], r[|r| - 1]);
    }
  }

  /**
   * A finished labelling whose labels are closed under adjacency and each
   * connected gives two nonzero pixels the same label exactly when they are
   * 8-connected: each label is one component.
   */
  lemma LabelsAreComponents(labs: seq<int>, a: seq<int>, w: int, h: int)
    requires forall p :: InGrid(p, w, h) && Get(a, p, h) != 0 ==> Get(labs, p, h) >= 1
    requires LabelsClosed(labs, a, w, h) && LabelsConnected(labs, a, w, h)
    ensures forall p, q :: InGrid(p, w, h) && InGrid(q, w, h) && Get(a, p, h) != 0 && Get(a, q, h) != 0 ==>
      (Get(labs, p, h) == Get(labs, q, h) <==> Connected(a, p, q, w, h))
  {
    forall p, q | InGrid(p, w, h) && InGrid(q, w, h) && Get(a, p, h) != 0 && Get(a, q, h) != 0
      && Connected(a, p, q, w, h)
      ensures Get(labs, p, h) == Get(labs, q, h)
    {
      var r :| Walk(r, a, w, h) && r[0] == p && r[|r| - 1] == q;
      WalkSameLabel(labs, a, r, w, h);
    }
  }

  // ---------------------------------------------------------------- tolerance masks

  /** The pixel at (x, y) is within `tolerance` of `color`: its scaled squared RGB distance is below it. */
  predicate Within(arr: array3<int>, x: int, y: int, color: seq<int>, tolerance: real)
    reads arr
    requires 0 <= x < arr.Length0 && 0 <= y < arr.Length1 && arr.Length2 >= 3 && |color| >= 3
  {
    Distance(Rgb(arr, x, y), color) < tolerance
  }

  /** A flat position of a grid of height h names the cell it was computed from. */
  lemma IdxSplit(x: int, y: int, w: int, h: int)
    requires 0 <= x < w && 0 <= y < h
    ensures Idx(x, y, h) / h == x && Idx(x, y, h) % h == y
  {
    var i := Idx(x, y, h);
    IdxInRange(x, y, w, h);
    IdxOf(i, w, h);
    IdxInjective(i / h, i % h, x, y, h);
  }

  /**
   * The first n flat positions of the tolerance mask of `color`: 1 at the
   * pixels within the tolerance, 0 at the others.
   */
  function WithinFlags(arr: array3<int>, color: seq<int>, tolerance: real, n: nat): (f: seq<int>)
    reads arr
    requires arr.Length2 >= 3 && |color| >= 3 && n <= arr.Length0 * arr.Length1
    ensures |f| == n
    ensures forall j :: 0 <= j < n ==> f[j] == 0 || f[j] == 1
  {
    if n == 0 then []
    else
      var i := n - 1;
      IdxOf(i, arr.Length0, arr.Length1);
      WithinFlags(arr, color, tolerance, i) + [if Within(arr, i / arr.Length1, i % arr.Length1, color, tolerance) then 1 else 0]
  }

  /** Position Idx(x, y) of the flags is the tolerance test of the pixel at (x, y). */
  lemma {:induction false} WithinFlagsAt(arr: array3<int>, color: seq<int>, tolerance: real, n: nat, x: int, y: int)
    requires arr.Length2 >= 3 && |color| >= 3 && n <= arr.Length0 * arr.Length1
    requires 0 <= x < arr.Length0 && 0 <= y < arr.Length1 && Idx(x, y, arr.Length1) < n
    ensures WithinFlags(arr, color, tolerance, n)[Idx(x, y, arr.Length1)]
      == if Within(arr, x, y, color, tolerance) then 1 else 0
  {
    var i := Idx(x, y, arr.Length1);
    if i < n - 1 {
      WithinFlagsAt(arr, color, tolerance, n - 1, x, y);
    } else {
      IdxSplit(x, y, arr.Length0, arr.Length1);
    }
  }

  /** The flags up to pixel (x, y) inclusive: the flags before it, then its own test. */
  lemma WithinFlagsNext(arr: array3<int>, color: seq<int>, tolerance: real, x: int, y: int)
    requires arr.Length2 >= 3 && |color| >= 3 && 0 <= x < arr.Length0 && 0 <= y < arr.Length1
    ensures Idx(x, y, arr.Length1) < arr.Length0 * arr.Length1
    ensures WithinFlags(arr, color, tolerance, Idx(x, y, arr.Length1) + 1)
      == WithinFlags(arr, color, tolerance, Idx(x, y, arr.Length1)) + [if Within(arr, x, y, color, tolerance) then 1 else 0]
  {
    IdxInRange(x, y, arr.Length0, arr.Length1);
    IdxSplit(x, y, arr.Length0, arr.Length1);
  }

  /** Every pixel is either within the tolerance or counted outside it. */
  lemma {:induction false} WithinFlagsPartition(f: seq<int>)
    requires forall j :: 0 <= j < |f| ==> f[j] == 0 || f[j] == 1
    ensures CountEq(f, 1) + CountEq(f, 0) == |f|
  {
    if |f| > 0 {
      WithinFlagsPartition(f[..|f| - 1]);
    }
  }

  // ---------------------------------------------------------------- inner edges

  /**
   * The tests of `innerEdges` at (x, y), in their order: a positive cell on
   * the top, right, bottom or left border, or with its N, E, S or W
   * neighbour equal to 0.
   */
  predicate EdgeAt(a: seq<int>, x: int, y: int, w: int, h: int)
  {
    Get(a, (x, y), h) > 0
    && (!(y > 0) || !(x + 1 < w) || !(y + 1 < h) || !(x > 0)
        || Get(a, (x, y - 1), h) == 0 || Get(a, (x + 1, y), h) == 0
        || Get(a, (x, y + 1), h) == 0 || Get(a, (x - 1, y), h) == 0)
  }

  /**
   * An inner edge cell is a positive cell one of whose four side
   * neighbours (N, E, S, W) lies outside the grid or is 0.
   */
  lemma EdgeAtMeaning(a: seq<int>, x: int, y: int, w: int, h: int)
    requires InGrid((x, y), w, h)
    ensures EdgeAt(a, x, y, w, h) <==> (Get(a, (x, y), h) > 0
      && exists k :: 0 <= k < 4 && var q := Neighbour((x, y), 2 * k); !InGrid(q, w, h) || Get(a, q, h) == 0)
  {
    if EdgeAt(a, x, y, w, h) {
      var k := if !(y > 0) || Get(a, (x, y - 1), h) == 0 then 0
        else if !(x + 1 < w) || Get(a, (x + 1, y), h) == 0 then 1
        else if !(y + 1 < h) || Get(a, (x, y + 1), h) == 0 then 2
        else 3;
      var q := Neighbour((x, y), 2 * k);
      assert !InGrid(q, w, h) || Get(a, q, h) == 0;
    }
  }

  /** The first n flat positions of the inner edge image of `a`. */
  function EdgeFlags(a: seq<int>, w: nat, h: nat, n: nat): (f: seq<int>)
    requires n <= w * h
    ensures |f| == n
  {
    if n == 0 then []
    else
      var i := n - 1;
      IdxOf(i, w, h);
      EdgeFlags(a, w, h, i) + [if EdgeAt(a, i / h, i % h, w, h) then 1 else 0]
  }

  /** The edge flags up to cell (x, y) inclusive: the flags before it, then its own test. */
  lemma EdgeFlagsNext(a: seq<int>, x: int, y: int, w: nat, h: nat)
    requires 0 <= x < w && 0 <= y < h
    ensures Idx(x, y, h) < w * h
    ensures EdgeFlags(a, w, h, Idx(x, y, h) + 1)
      == EdgeFlags(a, w, h, Idx(x, y, h)) + [if EdgeAt(a, x, y, w, h) then 1 else 0]
  {
    IdxInRange(x, y, w, h);
    IdxSplit(x, y, w, h);
  }

  /** Position Idx(x, y) of the edge flags is the edge test of (x, y). */
  lemma {:induction false} EdgeFlagsAt(a: seq<int>, w: nat, h: nat, n: nat, x: int, y: int)
    requires n <= w * h && 0 <= x < w && 0 <= y < h && Idx(x, y, h) < n
    ensures EdgeFlags(a, w, h, n)[Idx(x, y, h)] == if EdgeAt(a, x, y, w, h) then 1 else 0
  {
    if Idx(x, y, h) < n - 1 {
      EdgeFlagsAt(a, w, h, n - 1, x, y);
    } else {
      IdxSplit(x, y, w, h);
    }
  }

  /** An all-zero mask has no inner edges. */
  lemma {:induction false} EdgeFlagsOfZeros(a: seq<int>, w: nat, h: nat, n: nat)
    requires n <= w * h && forall i :: 0 <= i < |a| ==> a[i] == 0
    ensures forall i :: 0 <= i < n ==> EdgeFlags(a, w, h, n)[i] == 0
  {
    if n > 0 {
      EdgeFlagsOfZeros(a, w, h, n - 1);
    }
  }

  // ---------------------------------------------------------------- brush width

  /** `ndops.sum`: the sum of the entries of a mask. */
  function MaskSum(s: seq<int>): int
  {
    if |s| == 0 then 0 else MaskSum(s[..|s| - 1]) + s[|s| - 1]
  }

  // ---------------------------------------------------------------- labelling a whole mask

  /** Adjacent nonzero cells carry the same label as soon as either is visited. */
  ghost predicate LabelsClosed(labs: seq<int>, a: seq<int>, w: int, h: int)
  {
    forall p, q :: InGrid(p, w, h) && InGrid(q, w, h) && IsAdjacent(p, q)
      && Get(a, p, h) != 0 && Get(a, q, h) != 0 && Get(labs, p, h) != UNVISITED
      ==> Get(labs, q, h) == Get(labs, p, h)
  }

  /** The recolouring, read at one cell of the grid. */
  lemma RecolouredAt(o: seq<int>, cur: seq<int>, a: seq<int>, lab: int, p: Coord, w: int, h: int)
    requires |cur| == w * h && InGrid(p, w, h) && Recoloured(o, cur, a, lab)
    ensures Get(cur, p, h) == Get(o, p, h)
      || (Get(o, p, h) == UNVISITED && Get(a, p, h) != 0 && Get(cur, p, h) == lab)
  {
    GetInRange(cur, p, w, h);
    GetInRange(o, p, w, h);
    GetInRange(a, p, w, h);
  }

  /**
   * Labelling one more component with a fresh label keeps adjacent nonzero
   * cells together: a cell labelled before keeps its label and its
   * neighbours', and a newly labelled cell has only unvisited nonzero
   * neighbours before, all of which the pass labels too.
   */
  lemma LabelKeepsClosed(o: seq<int>, cur: seq<int>, a: seq<int>, lab: int, w: int, h: int)
    requires |cur| == w * h && lab != UNVISITED
    requires Recoloured(o, cur, a, lab) && Closed(o, cur, a, lab, w, h) && LabelsClosed(o, a, w, h)
    ensures LabelsClosed(cur, a, w, h)
  {
    forall p, q | InGrid(p, w, h) && InGrid(q, w, h) && IsAdjacent(p, q)
      && Get(a, p, h) != 0 && Get(a, q, h) != 0 && Get(cur, p, h) != UNVISITED
      ensures Get(cur, q, h) == Get(cur, p, h)
    {
      RecolouredAt(o, cur, a, lab, p, w, h);
      RecolouredAt(o, cur, a, lab, q, w, h);
      if Get(o, p, h) == UNVISITED {
        AdjacencySymmetric(p, q);
      }
    }
  }

  /** Labels with positions in common: a change from unvisited to `lab` leaves every other label's count alone. */
  lemma RecolouredCounts(o: seq<int>, cur: seq<int>, a: seq<int>, lab: int, l: int)
    requires Recoloured(o, cur, a, lab) && l != lab && l != UNVISITED
    ensures CountEq(cur, l) == CountEq(o, l)
  {
    CountEqSamePositions(cur, o, l, l);
  }

  /**
   * The state of the `labelComponents` scan before flat position i: zero
   * cells are EMPTY behind the scan and unvisited ahead of it; nonzero cells
   * hold a label in 1 .. labels - 1, or are still unvisited ahead of the
   * scan; `scores` has the keys 0 .. labels - 1, counts the zero cells
   * behind the scan in `scores[0]`, and gives each label at least its
   * number of cells.
   */
  ghost predicate ScanOk(out: seq<int>, a: seq<int>, labels: int, scores: map<int, int>, i: int)
  {
    |out| == |a| && 0 <= i <= |a| && labels >= 1
    && (forall l :: l in scores <==> 0 <= l < labels)
    && (forall j :: 0 <= j < |out| ==>
          if a[j] == 0 then out[j] == (if j < i then EMPTY else UNVISITED)
          else (out[j] == UNVISITED || 1 <= out[j] < labels) && (j < i ==> out[j] != UNVISITED))
    && scores[0] == CountEq(a[..i], 0)
    && (forall l :: 1 <= l < labels ==> 1 <= CountEq(out, l) <= scores[l])
  }

  /** The scan meets a zero cell: it becomes EMPTY and is counted in `scores[0]`. */
  lemma ScanZero(out: seq<int>, a: seq<int>, labels: int, scores: map<int, int>, i: int)
    requires ScanOk(out, a, labels, scores, i) && i < |a| && a[i] == 0
    ensures ScanOk(out[i := EMPTY], a, labels, scores[0 := scores[0] + 1], i + 1)
  {
    assert a[..i + 1] == a[..i] + [a[i]];
    CountEqSnoc(a[..i], a[i], 0);
    var out', scores' := out[i := EMPTY], scores[0 := scores[0] + 1];
    forall l | 1 <= l < labels
      ensures 1 <= CountEq(out', l) <= scores'[l]
    {
      CountEqUpdate(out, i, EMPTY, l);
    }
  }

  /** The scan meets a nonzero cell labelled before: nothing changes. */
  lemma ScanLabelled(out: seq<int>, a: seq<int>, labels: int, scores: map<int, int>, i: int)
    requires ScanOk(out, a, labels, scores, i) && i < |a| && a[i] != 0 && out[i] != UNVISITED
    ensures ScanOk(out, a, labels, scores, i + 1)
  {
    assert a[..i + 1] == a[..i] + [a[i]];
    CountEqSnoc(a[..i], a[i], 0);
  }

  /** No cell holds a label not handed out yet. */
  lemma ScanNewLabelAbsent(out: seq<int>, a: seq<int>, labels: int, scores: map<int, int>, i: int)
    requires ScanOk(out, a, labels, scores, i)
    ensures CountEq(out, labels) == 0
  {
    CountEqPresence(out, labels);
  }

  /** No cell of the grid holds a label not handed out yet. */
  lemma ScanNoCellHas(out: seq<int>, a: seq<int>, labels: int, scores: map<int, int>, i: int, w: int, h: int)
    requires |a| == w * h && ScanOk(out, a, labels, scores, i)
    ensures forall p :: InGrid(p, w, h) ==> Get(out, p, h) != labels
  {
    forall p | InGrid(p, w, h)
      ensures Get(out, p, h) != labels
    {
      GetInRange(out, p, w, h);
    }
  }

  /**
   * The scan meets an unvisited nonzero cell and labels its component with
   * the new label `labels`, starting from a score of 0.
   */
  lemma ScanFresh(out: seq<int>, out': seq<int>, a: seq<int>, labels: int, scores: map<int, int>,
                  scores': map<int, int>, i: int)
    requires ScanOk(out, a, labels, scores, i) && i < |a| && a[i] != 0 && out[i] == UNVISITED
    requires Recoloured(out, out', a, labels) && out'[i] == labels
    requires scores'.Keys == scores.Keys + {labels}
    requires forall l :: l in scores ==> scores'[l] == scores[l]
    requires scores'[labels] >= CountEq(out', labels) - CountEq(out, labels)
    ensures ScanOk(out', a, labels + 1, scores', i + 1)
  {
    assert scores'[0] == CountEq(a[..i + 1], 0) by {
      assert a[..i + 1] == a[..i] + [a[i]];
      CountEqSnoc(a[..i], a[i], 0);
    }
    assert forall j :: 0 <= j < |out'| ==>
      if a[j] == 0 then out'[j] == (if j < i + 1 then EMPTY else UNVISITED)
      else (out'[j] == UNVISITED || 1 <= out'[j] < labels + 1) && (j < i + 1 ==> out'[j] != UNVISITED);
    assert 1 <= CountEq(out', labels) <= scores'[labels] by {
      ScanNewLabelAbsent(out, a, labels, scores, i);
      CountEqPresence(out', labels);
    }
    forall l | 1 <= l < labels
      ensures 1 <= CountEq(out', l) <= scores'[l]
    {
      RecolouredCounts(out, out', a, labels, l);
    }
  }

  /** A write to a zero cell leaves the labels of nonzero cells, and so their closure, alone. */
  lemma ZeroWriteKeepsClosed(out: seq<int>, a: seq<int>, i: int, v: int, w: int, h: int)
    requires |out| == |a| == w * h && 0 <= i < |a| && a[i] == 0
    requires LabelsClosed(out, a, w, h)
    ensures LabelsClosed(out[i := v], a, w, h)
  {
    forall p | InGrid(p, w, h) && Get(a, p, h) != 0
      ensures Get(out[i := v], p, h) == Get(out, p, h)
    {
      GetInRange(out, p, w, h);
      GetInRange(a, p, w, h);
    }
  }

  /** The finished scan, read cell by cell. */
  lemma ScanDone(out: seq<int>, a: seq<int>, labels: int, scores: map<int, int>, w: int, h: int)
    requires |a| == w * h && ScanOk(out, a, labels, scores, |a|)
    ensures forall p :: InGrid(p, w, h) ==>
      if Get(a, p, h) == 0 then Get(out, p, h) == EMPTY else 1 <= Get(out, p, h) < labels
    ensures scores[0] == CountEq(a, 0)
  {
    assert a[..|a|] == a;
    forall p | InGrid(p, w, h)
      ensures if Get(a, p, h) == 0 then Get(out, p, h) == EMPTY else 1 <= Get(out, p, h) < labels
    {
      GetInRange(out, p, w, h);
      GetInRange(a, p, w, h);
    }
  }

  // ---------------------------------------------------------------- loop tracing

  /** Consecutive points of the path are adjacent. */
  predicate Chain(p: seq<Coord>)
  {
    forall i :: 0 < i < |p| ==> IsAdjacent(p[i - 1], p[i])
  }

  /** `endPath`'s padding: a path of fewer than two points gets `prevCoord` appended. */
  function Pad(p: seq<Coord>, prev: Option<Coord>): (r: seq<Coord>)
    requires |p| >= 2 || prev.Some?
    ensures |r| >= 2 || |p| == 0
  {
    if |p| < 2 then p + [prev.value] else p
  }

  /** An emitted path: at least two points, a chain, or a single point doubled by the padding. */
  predicate Emitted(p: seq<Coord>)
  {
    |p| >= 2 && (Chain(p) || (|p| == 2 && p[0] == p[1]))
  }

  /** A path with its padding taken off. */
  function Unpad(p: seq<Coord>): seq<Coord>
  {
    if |p| == 2 && p[0] == p[1] then [p[0]] else p
  }

  /** The points of the emitted paths, in order, without padding. */
  function Joined(ps: seq<seq<Coord>>): seq<Coord>
  {
    if |ps| == 0 then [] else Joined(ps[..|ps| - 1]) + Unpad(ps[|ps| - 1])
  }

  /** Emitting one more path adds its unpadded points at the end. */
  lemma JoinedSnoc(ps: seq<seq<Coord>>, p: seq<Coord>)
    ensures Joined(ps + [p]) == Joined(ps) + Unpad(p)
  {
    assert (ps + [p])[..|ps|] == ps;
  }

  /**
   * Closing a chain that ends at `prevCoord` emits a proper path, and
   * taking the padding back off gives the chain itself: no point is lost
   * or invented.
   */
  lemma PadEmitted(p: seq<Coord>, prev: Coord)
    requires |p| >= 1 && p[|p| - 1] == prev && Chain(p)
    ensures Emitted(Pad(p, Some(prev))) && Unpad(Pad(p, Some(prev))) == p
  {
    if |p| == 2 {
      AdjacencySymmetric(p[0], p[1]);
      assert IsAdjacent(p[0], p[1]);
    }
  }

  /**
   * Emitting a chain that ends at `prevCoord`, padded, keeps every emitted
   * path proper and the emitted points equal to the points fed.
   */
  lemma EmitClosed(ps: seq<seq<Coord>>, p: seq<Coord>, prev: Coord, fed: seq<Coord>)
    requires |p| >= 1 && p[|p| - 1] == prev && Chain(p)
    requires (forall i :: 0 <= i < |ps| ==> Emitted(ps[i])) && Joined(ps) + p == fed
    ensures var ps' := ps + [Pad(p, Some(prev))];
      (forall i :: 0 <= i < |ps'| ==> Emitted(ps'[i])) && Joined(ps') == fed
  {
    PadEmitted(p, prev);
    JoinedSnoc(ps, Pad(p, Some(prev)));
  }

  /** Feeding one more popped point extends the prefix fed so far. */
  lemma PrefixSnoc(fed0: seq<Coord>, pops: seq<Coord>, k: int)
    requires 0 <= k < |pops|
    ensures fed0 + pops[..k] + [pops[k]] == fed0 + pops[..k + 1]
  {
    assert pops[..k + 1] == pops[..k] + [pops[k]];
  }

  /** A chain extended by a point adjacent to its end is still a chain. */
  lemma ChainSnoc(p: seq<Coord>, q: Coord)
    requires |p| >= 1 && Chain(p) && IsAdjacent(p[|p| - 1], q)
    ensures Chain(p + [q])
  {
  }

  /**
   * The tracer's path building, `_Tracer`: the current `path`, the last
   * point `prevCoord`, and the `paths` emitted so far. `fed` is the ghost
   * record of the points handed to `init` and `updatePath`.
   */
  class Tracer {
    var prevCoord: Option<Coord>
    var path: seq<Coord>
    var paths: seq<seq<Coord>>
    var stack: seq<(Coord, int)>
    var direction: int
    ghost var fed: seq<Coord>

    /** Between loops: every emitted path is proper, and they hold exactly the points fed. */
    ghost predicate Idle()
      reads this
    {
      (forall i :: 0 <= i < |paths| ==> Emitted(paths[i])) && Joined(paths) == fed
    }

    /**
     * Inside a loop: additionally the current path is a chain ending at
     * `prevCoord`, and the emitted paths followed by it hold the points fed.
     */
    ghost predicate Tracing()
      reads this
    {
      |path| >= 1 && prevCoord == Some(path[|path| - 1]) && Chain(path)
      && (forall i :: 0 <= i < |paths| ==> Emitted(paths[i])) && Joined(paths) + path == fed
    }

    constructor()
      ensures prevCoord == None && path == [] && paths == [] && stack == [] && direction == 0
      ensures fed == [] && Idle()
    {
      prevCoord := None;
      path := [];
      paths := [];
      stack := [];
      direction := 0;
      fed := [];
    }

    /** `bindPaths` with a fresh empty array: nothing emitted yet. */
    method BindPaths()
      modifies this
      ensures paths == [] && fed == [] && Idle()
      ensures prevCoord == old(prevCoord) && path == old(path) && stack == old(stack) && direction == old(direction)
    {
      paths := [];
      fed := [];
    }

    /** `init`: a new path holding only `coord`, which is also the only entry of the stack, heading north. */
    method Init(coord: Coord)
      modifies this
      ensures prevCoord == Some(coord) && path == [coord] && direction == 0 && stack == [(coord, 0)]
      ensures paths == old(paths)
      ensures old(Idle()) ==> Tracing() && fed == old(fed) + [coord]
    {
      prevCoord := Some(coord);
      path := [coord];
      direction := 0;
      stack := [(coord, direction)];
      fed := Joined(paths) + [coord];
    }

    /**
     * `endPath`: emits the current path, padded with `prevCoord` when it
     * has one point; with a coordinate, a new path starts there.
     */
    method EndPath(coord: Option<Coord>)
      requires |path| >= 2 || prevCoord.Some?
      modifies this
      ensures paths == old(paths) + [Pad(old(path), old(prevCoord))]
      ensures coord.Some? ==> path == [coord.value] && prevCoord == coord
      ensures coord.None? ==> path == Pad(old(path), old(prevCoord)) && prevCoord == old(prevCoord)
      ensures stack == old(stack) && direction == old(direction)
      ensures old(Tracing()) && coord.Some? ==> Tracing() && fed == old(fed) + [coord.value]
      ensures old(Tracing()) && coord.None? ==> Idle() && fed == old(fed)
    {
      ghost var wasTracing := Tracing();
      if wasTracing {
        EmitClosed(paths, path, prevCoord.value, fed);
      }
      if |path| < 2 {
        path := path + [prevCoord.value];
      }
      paths := paths + [path];
      if coord.Some? {
        path := [coord.value];
        prevCoord := coord;
        if wasTracing {
          fed := fed + [coord.value];
        }
      }
    }

    /**
     * `updatePath`: a point adjacent to `prevCoord` extends the current
     * path; any other point ends it and starts a new one.
     */
    method UpdatePath(next: Coord)
      requires prevCoord.Some?
      modifies this
      ensures !IsAdjacent(next, old(prevCoord).value) ==>
        paths == old(paths) + [Pad(old(path), old(prevCoord))] && path == [next]
      ensures IsAdjacent(next, old(prevCoord).value) ==> paths == old(paths) && path == old(path) + [next]
      ensures prevCoord == Some(next) && stack == old(stack) && direction == old(direction)
      ensures old(Tracing()) ==> Tracing() && fed == old(fed) + [next]
    {
      if !IsAdjacent(next, prevCoord.value) {
        EndPath(Some(next));
        return;
      }
      ghost var wasTracing := Tracing();
      if wasTracing {
        AdjacencySymmetric(next, prevCoord.value);
        ChainSnoc(path, next);
      }
      path := path + [next];
      prevCoord := Some(next);
      if wasTracing {
        fed := fed + [next];
      }
    }
  }

  /**
   * A point the loop tracing may emit: a seed (a cell of value 1) or one of
   * the points the traversal from a seed pops.
   */
  ghost predicate Origin(a: seq<int>, trav: Coord -> seq<Coord>, q: Coord, w: int, h: int)
  {
    exists s :: InGrid(s, w, h) && Get(a, s, h) == 1 && (q == s || q in trav(s))
  }

  /** The points a loop from the seed s feeds, the seed twice and then its popped points, all have an origin. */
  lemma LoopOrigins(a: seq<int>, trav: Coord -> seq<Coord>, fed: seq<Coord>, s: Coord, w: int, h: int)
    requires InGrid(s, w, h) && Get(a, s, h) == 1
    requires forall i :: 0 <= i < |fed| ==> Origin(a, trav, fed[i], w, h)
    ensures var fed' := fed + [s] + ([s] + trav(s));
      forall i :: 0 <= i < |fed'| ==> Origin(a, trav, fed'[i], w, h)
  {
    var fed' := fed + [s] + ([s] + trav(s));
    forall i | 0 <= i < |fed'|
      ensures Origin(a, trav, fed'[i], w, h)
    {
      if i >= |fed| + 2 {
        assert fed'[i] == trav(s)[i - |fed| - 2];
      }
    }
  }

  // ---------------------------------------------------------------- stripes

  /** From the old to the new mask, entries only ever become 0. */
  predicate OnlyZeroed(o: seq<int>, cur: seq<int>)
  {
    |cur| == |o| && forall i :: 0 <= i < |cur| ==> cur[i] == o[i] || cur[i] == 0
  }

  /** The flat positions lo .. hi - 1 of the data set to 0; `set` ignores positions outside the data. */
  function ZeroFlat(s: seq<int>, lo: int, hi: int): (r: seq<int>)
    ensures |r| == |s| && OnlyZeroed(s, r)
    ensures forall i :: 0 <= i < |s| ==> r[i] == if lo <= i < hi then 0 else s[i]
  {
    seq(|s|, i requires 0 <= i < |s| => if lo <= i < hi then 0 else s[i])
  }

  /**
   * The culling of the x-major stripes as written, `arr.set(x, iy, 0)` for
   * iy in x - radius .. x + radius - 1: the flat positions from
   * Idx(x, x - radius) up to Idx(x, x + radius), whatever the row.
   */
  function CullAsWritten(s: seq<int>, x: int, radius: int, h: int): seq<int>
  {
    ZeroFlat(s, Idx(x, x - radius, h), Idx(x, x + radius, h))
  }

  /** The culling evidently intended: iy in y - radius .. y + radius - 1, around the stripe's own row. */
  function CullFixed(s: seq<int>, x: int, y: int, radius: int, h: int): seq<int>
  {
    ZeroFlat(s, Idx(x, y - radius, h), Idx(x, y + radius, h))
  }

  /** With a radius of at least 1, the intended culling clears the stripe pixel itself, and only ever zeroes. */
  lemma CullFixedClearsPixel(s: seq<int>, x: int, y: int, radius: int, w: int, h: int)
    requires |s| == w * h && InGrid((x, y), w, h) && radius >= 1
    ensures Get(CullFixed(s, x, y, radius, h), (x, y), h) == 0
    ensures OnlyZeroed(s, CullFixed(s, x, y, radius, h))
  {
    GetInRange(CullFixed(s, x, y, radius, h), (x, y), w, h);
  }

  /**
   * The culling as written works around the wrong row: on an 8 x 4 mask of
   * ones, culling at the stripe pixel (5, 0) with radius 1 leaves (5, 0)
   * set and zeroes (6, 0), the next pixel of the same run, so the run ends
   * early at x = 5; the intended culling clears (5, 0) and keeps (6, 0).
   */
  lemma CullAsWrittenCutsRun()
    ensures var s := seq(32, i => 1);
      Get(CullAsWritten(s, 5, 1, 4), (5, 0), 4) == 1 && Get(CullAsWritten(s, 5, 1, 4), (6, 0), 4) == 0
      && Get(CullFixed(s, 5, 0, 1, 4), (5, 0), 4) == 0 && Get(CullFixed(s, 5, 0, 1, 4), (6, 0), 4) == 1
  {
  }

  /** A row stripe: two points on row y, start before end, each pixel between positive in the mask `o`. */
  predicate RowStripe(p: seq<Coord>, o: seq<int>, w: int, h: int)
  {
    |p| == 2 && p[0].1 == p[1].1 && 0 <= p[0].1 < h && 0 <= p[0].0 <= p[1].0 < w
    && forall x :: p[0].0 <= x <= p[1].0 ==> Get(o, (x, p[0].1), h) > 0
  }

  /** A column stripe: two points on column x, start before end, each pixel between positive in the mask `o`. */
  predicate ColumnStripe(p: seq<Coord>, o: seq<int>, w: int, h: int)
  {
    |p| == 2 && p[0].0 == p[1].0 && 0 <= p[0].0 < w && 0 <= p[0].1 <= p[1].1 < h
    && forall y :: p[0].1 <= y <= p[1].1 ==> Get(o, (p[0].0, y), h) > 0
  }

  /** The culling as written at the stripe pixel in column xs clears the flat position of c. */
  predicate CulledAt(xs: int, c: Coord, radius: int, h: int)
  {
    Idx(xs, xs - radius, h) <= Idx(c.0, c.1, h) < Idx(xs, xs + radius, h)
  }

  /**
   * The row stripe p, culling as written with `radius`, accounts for the
   * pixel c: c lies on the stripe, or the culling at one of the stripe's
   * pixels cleared c's flat position.
   */
  ghost predicate RowCovers(p: seq<Coord>, c: Coord, radius: int, h: int)
  {
    |p| == 2
    && ((c.1 == p[0].1 && p[0].0 <= c.0 <= p[1].0) || exists xs :: p[0].0 <= xs <= p[1].0 && CulledAt(xs, c, radius, h))
  }

  /** Some stripe of `paths` accounts for the pixel c. */
  ghost predicate RowCovered(paths: seq<seq<Coord>>, c: Coord, radius: int, h: int)
  {
    exists k :: 0 <= k < |paths| && RowCovers(paths[k], c, radius, h)
  }

  /** Every pixel changed from `e` to `cur` was cleared by the culling at a column in x0 .. x - 1. */
  ghost predicate CulledWithin(e: seq<int>, cur: seq<int>, x0: int, x: int, radius: int, w: int, h: int)
  {
    forall c :: InGrid(c, w, h) && Get(cur, c, h) != Get(e, c, h) ==>
      exists xs :: x0 <= xs < x && CulledAt(xs, c, radius, h)
  }

  /** One more culling as written, at column x, extends the columns whose culling explains the changes. */
  lemma CulledWithinStep(e: seq<int>, prev: seq<int>, x0: int, x: int, radius: int, w: int, h: int)
    requires |prev| == w * h && x0 <= x && CulledWithin(e, prev, x0, x, radius, w, h)
    ensures CulledWithin(e, CullAsWritten(prev, x, radius, h), x0, x + 1, radius, w, h)
  {
    var cur := CullAsWritten(prev, x, radius, h);
    forall c | InGrid(c, w, h) && Get(cur, c, h) != Get(e, c, h)
      ensures exists xs :: x0 <= xs < x + 1 && CulledAt(xs, c, radius, h)
    {
      GetInRange(prev, c, w, h);
      GetInRange(cur, c, w, h);
      if Get(cur, c, h) != Get(prev, c, h) {
        assert CulledAt(x, c, radius, h);
      } else {
        var xs :| x0 <= xs < x && CulledAt(xs, c, radius, h);
        assert x0 <= xs < x + 1;
      }
    }
  }

  /** The x-major scan has passed the pixel c when it is at (x, y). */
  predicate RowPassed(c: Coord, x: int, y: int)
  {
    c.1 < y || (c.1 == y && c.0 < x)
  }

  /**
   * The x-major scan at (x, y): every pixel whose value the culling changed
   * from the original mask `o`, and every pixel positive in `o` that the
   * scan has passed, is accounted for by a stripe.
   */
  ghost predicate RowsSwept(paths: seq<seq<Coord>>, o: seq<int>, cur: seq<int>, radius: int, x: int, y: int, w: int, h: int)
  {
    (forall c :: InGrid(c, w, h) && Get(cur, c, h) != Get(o, c, h) ==> RowCovered(paths, c, radius, h))
    && forall c :: InGrid(c, w, h) && RowPassed(c, x, y) && Get(o, c, h) > 0 ==> RowCovered(paths, c, radius, h)
  }

  /** The scan passes a pixel that is not positive: it is accounted for already, or was never positive. */
  lemma RowsSweptSkip(paths: seq<seq<Coord>>, o: seq<int>, cur: seq<int>, radius: int, x: int, y: int, w: int, h: int)
    requires InGrid((x, y), w, h) && Get(cur, (x, y), h) <= 0
    requires RowsSwept(paths, o, cur, radius, x, y, w, h)
    ensures RowsSwept(paths, o, cur, radius, x + 1, y, w, h)
  {
  }

  /**
   * The scan meets a positive pixel (x, y) and runs right to (x1, y), each
   * change made by the culling at one of the columns x .. x1: the new stripe
   * accounts for the run and for what its culling changed.
   */
  lemma RowsSweptRun(paths: seq<seq<Coord>>, o: seq<int>, cur: seq<int>, cur': seq<int>, radius: int,
                     x: int, y: int, x1: int, w: int, h: int)
    requires 0 <= x <= x1 < w && 0 <= y < h
    requires RowsSwept(paths, o, cur, radius, x, y, w, h)
    requires CulledWithin(cur, cur', x, x1 + 1, radius, w, h)
    ensures RowsSwept(paths + [[(x, y), (x1, y)]], o, cur', radius, x1 + 1, y, w, h)
  {
    var p := [(x, y), (x1, y)];
    var ps := paths + [p];
    forall c | InGrid(c, w, h) && RowCovered(paths, c, radius, h)
      ensures RowCovered(ps, c, radius, h)
    {
      var k :| 0 <= k < |paths| && RowCovers(paths[k], c, radius, h);
      assert ps[k] == paths[k];
    }
    forall c | InGrid(c, w, h) && Get(cur', c, h) != Get(cur, c, h)
      ensures RowCovered(ps, c, radius, h)
    {
      assert RowCovers(ps[|paths|], c, radius, h);
    }
    forall c | InGrid(c, w, h) && c.1 == y && x <= c.0 <= x1
      ensures RowCovered(ps, c, radius, h)
    {
      assert RowCovers(ps[|paths|], c, radius, h);
    }
  }

  /**
   * The column stripe p, culling with `radius`, accounts for the pixel c: c
   * lies on a row the stripe spans, in the stripe's own column or in one of
   * the columns x - radius .. x + radius - 1 its culling clears on that row.
   */
  predicate ColumnCovers(p: seq<Coord>, c: Coord, radius: int)
  {
    |p| == 2 && p[0].1 <= c.1 <= p[1].1 && (c.0 == p[0].0 || p[0].0 - radius <= c.0 < p[0].0 + radius)
  }

  /** Some stripe of `paths` accounts for the pixel c. */
  ghost predicate ColumnCovered(paths: seq<seq<Coord>>, c: Coord, radius: int)
  {
    exists k :: 0 <= k < |paths| && ColumnCovers(paths[k], c, radius)
  }

  /**
   * The y-major scan before flat position n: every pixel whose value the
   * culling changed from the original mask `o`, and every pixel positive in
   * `o` that the scan has passed, is accounted for by a stripe.
   */
  ghost predicate ColumnsSwept(paths: seq<seq<Coord>>, o: seq<int>, cur: seq<int>, radius: int, n: int, w: int, h: int)
  {
    (forall c :: InGrid(c, w, h) && Get(cur, c, h) != Get(o, c, h) ==> ColumnCovered(paths, c, radius))
    && forall c :: InGrid(c, w, h) && Idx(c.0, c.1, h) < n && Get(o, c, h) > 0 ==> ColumnCovered(paths, c, radius)
  }

  /** The flat positions from (x, y) up to (x, y1) are the pixels of column x from row y to row y1. */
  lemma IdxBetween(c: Coord, x: int, y: int, y1: int, w: int, h: int)
    requires InGrid(c, w, h) && 0 <= y <= y1 < h
    requires Idx(x, y, h) <= Idx(c.0, c.1, h) < Idx(x, y1 + 1, h)
    ensures c.0 == x && y <= c.1 <= y1
  {
    if c.0 < x {
      MulMono(c.0 + 1, x, h);
    } else if c.0 > x {
      MulMono(x + 1, c.0, h);
    }
  }

  /** The scan passes a pixel that is not positive: it is accounted for already, or was never positive. */
  lemma ColumnsSweptSkip(paths: seq<seq<Coord>>, o: seq<int>, cur: seq<int>, radius: int, x: int, y: int, w: int, h: int)
    requires InGrid((x, y), w, h) && Get(cur, (x, y), h) <= 0
    requires ColumnsSwept(paths, o, cur, radius, Idx(x, y, h), w, h)
    ensures ColumnsSwept(paths, o, cur, radius, Idx(x, y, h) + 1, w, h)
  {
    forall c | InGrid(c, w, h) && Idx(c.0, c.1, h) < Idx(x, y, h) + 1 && Get(o, c, h) > 0
      ensures ColumnCovered(paths, c, radius)
    {
      if Idx(c.0, c.1, h) == Idx(x, y, h) {
        IdxInjective(c.0, c.1, x, y, h);
      }
    }
  }

  /**
   * The scan meets a positive pixel (x, y) and runs down to (x, y1),
   * changing pixels only on those rows, in the columns x - radius ..
   * x + radius - 1: the new stripe accounts for the run and for what its
   * culling changed.
   */
  lemma ColumnsSweptRun(paths: seq<seq<Coord>>, o: seq<int>, cur: seq<int>, cur': seq<int>, radius: int,
                        x: int, y: int, y1: int, w: int, h: int)
    requires 0 <= x < w && 0 <= y <= y1 < h
    requires ColumnsSwept(paths, o, cur, radius, Idx(x, y, h), w, h)
    requires forall c :: InGrid(c, w, h) && Get(cur', c, h) != Get(cur, c, h) ==>
      y <= c.1 <= y1 && x - radius <= c.0 < x + radius
    ensures ColumnsSwept(paths + [[(x, y), (x, y1)]], o, cur', radius, Idx(x, y1 + 1, h), w, h)
  {
    var p := [(x, y), (x, y1)];
    var ps := paths + [p];
    forall c | InGrid(c, w, h) && ColumnCovered(paths, c, radius)
      ensures ColumnCovered(ps, c, radius)
    {
      var k :| 0 <= k < |paths| && ColumnCovers(paths[k], c, radius);
      assert ps[k] == paths[k];
    }
    forall c | InGrid(c, w, h) && Get(cur', c, h) != Get(cur, c, h)
      ensures ColumnCovered(ps, c, radius)
    {
      assert ColumnCovers(ps[|paths|], c, radius);
    }
    forall c | InGrid(c, w, h) && Idx(x, y, h) <= Idx(c.0, c.1, h) < Idx(x, y1 + 1, h)
      ensures ColumnCovered(ps, c, radius)
    {
      IdxBetween(c, x, y, y1, w, h);
      assert ColumnCovers(ps[|paths|], c, radius);
    }
  }

  /** The finished y-major scan accounts for every positive pixel of the original mask. */
  lemma ColumnsSweptAll(paths: seq<seq<Coord>>, o: seq<int>, cur: seq<int>, radius: int, w: int, h: int)
    requires ColumnsSwept(paths, o, cur, radius, Idx(w, 0, h), w, h)
    ensures forall c :: InGrid(c, w, h) && Get(o, c, h) > 0 ==> ColumnCovered(paths, c, radius)
  {
    forall c | InGrid(c, w, h) && Get(o, c, h) > 0
      ensures ColumnCovered(paths, c, radius)
    {
      IdxInRange(c.0, c.1, w, h);
      assert Idx(c.0, c.1, h) < Idx(w, 0, h);
    }
  }

  /** The bounding box `stripMaskMut` gathers: its extreme x and y over the positive pixels. */
  datatype Box = Box(xMin: int, xMax: int, yMin: int, yMax: int)

  /** The pixel c lies in the grid, before flat position n, and is positive. */
  ghost predicate PositiveBefore(a: seq<int>, c: Coord, w: int, h: int, n: int)
  {
    InGrid(c, w, h) && Idx(c.0, c.1, h) < n && Get(a, c, h) > 0
  }

  /**
   * The box after scanning the first n flat positions, x outer and y inner,
   * from the initial box (width, 0, height, 0).
   */
  function BoxOf(a: seq<int>, w: nat, h: nat, n: nat): (b: Box)
    requires n <= |a| && (n == 0 || h > 0)
  {
    if n == 0 then Box(w, 0, h, 0)
    else
      var b := BoxOf(a, w, h, n - 1);
      var x, y := (n - 1) / h, (n - 1) % h;
      if a[n - 1] > 0 then
        Box(if x < b.xMin then x else b.xMin, if x > b.xMax then x else b.xMax,
            if y < b.yMin then y else b.yMin, if y > b.yMax then y else b.yMax)
      else b
  }

  /**
   * The box is tight: every positive pixel scanned lies inside it, and when
   * there is one each bound is attained by one; with none the box is the
   * initial one.
   */
  lemma {:induction false} BoxTight(a: seq<int>, w: nat, h: nat, n: nat)
    requires h > 0 && n <= |a| == w * h
    ensures var b := BoxOf(a, w, h, n);
      (forall c :: PositiveBefore(a, c, w, h, n) ==> b.xMin <= c.0 <= b.xMax && b.yMin <= c.1 <= b.yMax)
      && ((exists c :: PositiveBefore(a, c, w, h, n)) ==>
            (exists c :: PositiveBefore(a, c, w, h, n) && c.0 == b.xMin)
            && (exists c :: PositiveBefore(a, c, w, h, n) && c.0 == b.xMax)
            && (exists c :: PositiveBefore(a, c, w, h, n) && c.1 == b.yMin)
            && (exists c :: PositiveBefore(a, c, w, h, n) && c.1 == b.yMax))
      && ((forall c :: !PositiveBefore(a, c, w, h, n)) ==> b == Box(w, 0, h, 0))
  {
    if n > 0 {
      BoxTight(a, w, h, n - 1);
      var c0 := ((n - 1) / h, (n - 1) % h);
      IdxOf(n - 1, w, h);
      GetInRange(a, c0, w, h);
      forall c | InGrid(c, w, h) && Idx(c.0, c.1, h) < n
        ensures PositiveBefore(a, c, w, h, n) <==>
          PositiveBefore(a, c, w, h, n - 1) || (c == c0 && a[n - 1] > 0)
      {
        if Idx(c.0, c.1, h) == n - 1 {
          IdxInjective(c.0, c.1, c0.0, c0.1, h);
        }
      }
      assert a[n - 1] > 0 ==> PositiveBefore(a, c0, w, h, n);
    }
  }

  // ---------------------------------------------------------------- the MaskUtils object

  /** A `MaskUtils` for masks of one shape, with its scratch label grid. */
  class MaskUtils {
    const width: nat
    const height: nat
    /** `tempInt8`: the scratch grid `loopTrace` marks visited cells in. */
    const tempInt8: array<int>
    /** `_Tracer`: the one path builder `loopTrace` uses. */
    const tracer: Tracer

    constructor(width: nat, height: nat)
      ensures this.width == width && this.height == height
      ensures fresh(tempInt8) && tempInt8.Length == width * height
      ensures fresh(tracer) && tracer.paths == [] && tracer.Idle()
    {
      this.width := width;
      this.height := height;
      tempInt8 := new int[width * height](_ => 0);
      tracer := new Tracer();
    }

    /** `pushIfValidMut`: pushes [ix, iy] exactly when the mask is nonzero and the label unvisited there. */
    method PushIfValidMut(labelArr: array<int>, arr: array<int>, ix: int, iy: int, stack: seq<Coord>)
      returns (stack': seq<Coord>)
      requires labelArr.Length == width * height && arr.Length == width * height
      requires InGrid((ix, iy), width, height)
      ensures stack' == stack + Keep(labelArr[..], arr[..], (ix, iy), height)
    {
      GetInRange(arr[..], (ix, iy), width, height);
      GetInRange(labelArr[..], (ix, iy), width, height);
      var nonzero := arr[Idx(ix, iy, height)] != 0;
      var unvisited := labelArr[Idx(ix, iy, height)] == UNVISITED;
      if nonzero && unvisited {
        stack' := stack + [(ix, iy)];
      } else {
        stack' := stack;
      }
    }

    /**
     * The eight guarded pushes of one `labelComponentMut` step: the open
     * neighbours of [ix, iy] inside the grid, in the order N, NE, E, SE, S,
     * SW, W, NW.
     */
    method PushNeighbours(labelArr: array<int>, arr: array<int>, ix: int, iy: int, stack: seq<Coord>)
      returns (stack': seq<Coord>)
      requires labelArr.Length == width * height && arr.Length == width * height
      requires InGrid((ix, iy), width, height)
      ensures stack' == stack + Pushes(labelArr[..], arr[..], (ix, iy), width, height, 8)
    {
      ghost var c := (ix, iy);
      var hasN := iy > 0;
      var hasE := ix + 1 < width;
      var hasS := iy + 1 < height;
      var hasW := ix > 0;
      stack' := stack;
      stack' := PushWhen(hasN, labelArr, arr, ix, iy - 1, stack', stack, c, 0);
      stack' := PushWhen(hasN && hasE, labelArr, arr, ix + 1, iy - 1, stack', stack, c, 1);
      stack' := PushWhen(hasE, labelArr, arr, ix + 1, iy, stack', stack, c, 2);
      stack' := PushWhen(hasE && hasS, labelArr, arr, ix + 1, iy + 1, stack', stack, c, 3);
      stack' := PushWhen(hasS, labelArr, arr, ix, iy + 1, stack', stack, c, 4);
      stack' := PushWhen(hasS && hasW, labelArr, arr, ix - 1, iy + 1, stack', stack, c, 5);
      stack' := PushWhen(hasW, labelArr, arr, ix - 1, iy, stack', stack, c, 6);
      stack' := PushWhen(hasN && hasW, labelArr, arr, ix - 1, iy - 1, stack', stack, c, 7);
    }

    /**
     * `if (guard) pushIfValidMut(...)` for neighbour k of c, whose in-grid
     * test the guard is: extends the pushes of the first k neighbours by
     * neighbour k.
     */
    method PushWhen(guard: bool, labelArr: array<int>, arr: array<int>, ix: int, iy: int, stack: seq<Coord>,
                    ghost base: seq<Coord>, ghost c: Coord, ghost k: nat)
      returns (stack': seq<Coord>)
      requires labelArr.Length == width * height && arr.Length == width * height
      requires k < 8 && InGrid(c, width, height) && (ix, iy) == Neighbour(c, k)
      requires guard <==> InGrid((ix, iy), width, height)
      requires stack == base + Pushes(labelArr[..], arr[..], c, width, height, k)
      ensures stack' == base + Pushes(labelArr[..], arr[..], c, width, height, k + 1)
    {
      if guard {
        stack' := PushIfValidMut(labelArr, arr, ix, iy, stack);
      } else {
        stack' := stack;
      }
    }

    /**
     * `labelComponentMut`: depth-first labelling from the seed [x, y] with
     * an explicit stack. Only unvisited nonzero cells change, to `lab`; the
     * seed is labelled; no nonzero 8-neighbour of a cell labelled here is
     * left unvisited; every pop adds one to `scores[lab]`, so the score is
     * at least the number of cells labelled (a cell pushed twice is counted
     * twice).
     */
    method LabelComponentMut(labelArr: array<int>, arr: array<int>, x: int, y: int, lab: int, scores: map<int, int>)
      returns (scores': map<int, int>)
      requires labelArr.Length == width * height && arr.Length == width * height && labelArr != arr
      requires InGrid((x, y), width, height) && Open(labelArr[..], arr[..], (x, y), height)
      requires lab != UNVISITED && lab in scores
      modifies labelArr
      ensures Recoloured(old(labelArr[..]), labelArr[..], arr[..], lab)
      ensures Get(labelArr[..], (x, y), height) == lab
      ensures Closed(old(labelArr[..]), labelArr[..], arr[..], lab, width, height)
      ensures scores'.Keys == scores.Keys
      ensures forall l :: l in scores && l != lab ==> scores'[l] == scores[l]
      ensures scores'[lab] >= scores[lab] + CountEq(labelArr[..], lab) - CountEq(old(labelArr[..]), lab)
      ensures forall p :: InGrid(p, width, height) && Get(old(labelArr[..]), p, height) == UNVISITED
                       && Get(labelArr[..], p, height) == lab
                      ==> Connected(arr[..], (x, y), p, width, height)
    {
      ghost var o := labelArr[..];
      var stack := [(x, y)];
      scores' := scores;
      ConnectedCells(arr[..], (x, y), (x, y), width, height);
      while |stack| > 0
        invariant Labelling(stack, o, labelArr[..], arr[..], lab, (x, y), width, height)
        invariant Get(labelArr[..], (x, y), height) == lab || (|stack| > 0 && stack[0] == (x, y))
        invariant scores'.Keys == scores.Keys
        invariant forall l :: l in scores && l != lab ==> scores'[l] == scores[l]
        invariant scores'[lab] >= scores[lab] + CountEq(labelArr[..], lab) - CountEq(o, lab)
        decreases CountEq(labelArr[..], UNVISITED), |stack|
      {
        ghost var cur := labelArr[..];
        ghost var coord := stack[|stack| - 1];
        stack := PopAndLabel(labelArr, arr, stack, lab, o, (x, y));
        GetSet(cur, coord, (x, y), lab, width, height);
        scores' := scores'[lab := scores'[lab] + 1];
      }
      EmptyFrontierClosed(o, labelArr[..], arr[..], lab, width, height);
    }

    /**
     * One iteration of the `labelComponentMut` loop: pop the top cell, push
     * its open neighbours, label it `lab`. The loop invariants are kept; a
     * fresh cell moves from unvisited to `lab`, and a cell labelled before
     * changes nothing and pushes nothing.
     */
    method PopAndLabel(labelArr: array<int>, arr: array<int>, stack: seq<Coord>, lab: int, ghost o: seq<int>, ghost s: Coord)
      returns (stack': seq<Coord>)
      requires labelArr.Length == width * height && arr.Length == width * height && labelArr != arr
      requires |stack| > 0 && lab != UNVISITED
      requires Labelling(stack, o, labelArr[..], arr[..], lab, s, width, height)
      modifies labelArr
      ensures var t := stack[|stack| - 1];
        labelArr[..] == Set(old(labelArr[..]), t, height, lab)
        && stack' == stack[..|stack| - 1] + Pushes(old(labelArr[..]), arr[..], t, width, height, 8)
        && InGrid(t, width, height)
        && Labelling(stack', o, labelArr[..], arr[..], lab, s, width, height)
        && if Get(old(labelArr[..]), t, height) == UNVISITED then
             CountEq(labelArr[..], UNVISITED) == CountEq(old(labelArr[..]), UNVISITED) - 1
             && CountEq(labelArr[..], lab) == CountEq(old(labelArr[..]), lab) + 1
           else labelArr[..] == old(labelArr[..]) && |stack'| == |stack| - 1
    {
      var coord := stack[|stack| - 1];
      ghost var cur := labelArr[..];
      stack' := stack[..|stack| - 1];
      var ix, iy := coord.0, coord.1;
      stack' := PushNeighbours(labelArr, arr, ix, iy, stack');
      PopStep(stack, o, cur, arr[..], lab, s, width, height);
      GetInRange(cur, coord, width, height);
      labelArr[Idx(ix, iy, height)] := lab;
    }
  
    /**
     * `labelComponents`: scanning x-major, each zero cell becomes EMPTY and
     * counts towards `scores[0]`; each nonzero cell still unvisited seeds a
     * new label `labels` (starting at 1), whose component is labelled before
     * the scan goes on.
     */
    method LabelComponents(arr: array<int>) returns (output: array<int>, labels: int, scores: map<int, int>)
      requires arr.Length == width * height
      ensures fresh(output) && output.Length == width * height
      ensures labels >= 1 && forall l :: l in scores <==> 0 <= l < labels
      ensures forall p :: InGrid(p, width, height) ==>
        if Get(arr[..], p, height) == 0 then Get(output[..], p, height) == EMPTY
        else 1 <= Get(output[..], p, height) < labels
      ensures LabelsClosed(output[..], arr[..], width, height)
      ensures forall p, q :: InGrid(p, width, height) && InGrid(q, width, height)
                          && Get(arr[..], p, height) != 0 && Get(arr[..], q, height) != 0
                         ==> (Get(output[..], p, height) == Get(output[..], q, height)
                              <==> Connected(arr[..], p, q, width, height))
      ensures scores[0] == CountEq(arr[..], 0)
      ensures forall l :: 1 <= l < labels ==> 1 <= CountEq(output[..], l) <= scores[l]
    {
      labels := 1;
      scores := map[0 := 0];
      output := new int[width * height](_ => UNVISITED);
      assert arr[..0] == [];
      var x := 0;
      while x < width
        invariant 0 <= x <= width
        invariant ScanOk(output[..], arr[..], labels, scores, Idx(x, 0, height))
        invariant LabelsClosed(output[..], arr[..], width, height)
        invariant LabelsConnected(output[..], arr[..], width, height)
      {
        var y := 0;
        while y < height
          invariant 0 <= y <= height
          invariant ScanOk(output[..], arr[..], labels, scores, Idx(x, y, height))
          invariant LabelsClosed(output[..], arr[..], width, height)
          invariant LabelsConnected(output[..], arr[..], width, height)
        {
          labels, scores := ScanCell(output, arr, x, y, labels, scores);
          IdxNext(x, y, height);
          y := y + 1;
        }
        IdxNext(x, height, height);
        x := x + 1;
      }
      ScanDone(output[..], arr[..], labels, scores, width, height);
      LabelsAreComponents(output[..], arr[..], width, height);
    }

    /**
     * One cell of the `labelComponents` scan: a zero cell becomes EMPTY and
     * is counted in `scores[0]`; an unvisited nonzero cell gets the label
     * `labels` with its whole component, and the next label is one higher.
     */
    method ScanCell(output: array<int>, arr: array<int>, x: int, y: int, labels: int, scores: map<int, int>)
      returns (labels': int, scores': map<int, int>)
      requires output.Length == width * height && arr.Length == width * height && output != arr
      requires InGrid((x, y), width, height)
      requires ScanOk(output[..], arr[..], labels, scores, Idx(x, y, height))
      requires LabelsClosed(output[..], arr[..], width, height)
      requires LabelsConnected(output[..], arr[..], width, height)
      modifies output
      ensures ScanOk(output[..], arr[..], labels', scores', Idx(x, y, height) + 1)
      ensures LabelsClosed(output[..], arr[..], width, height)
      ensures LabelsConnected(output[..], arr[..], width, height)
    {
      var i := Idx(x, y, height);
      IdxInRange(x, y, width, height);
      var pix := arr[i];
      var val := output[i];
      labels', scores' := labels, scores;
      if pix == 0 {
        ScanZero(output[..], arr[..], labels, scores, i);
        ZeroWriteKeepsClosed(output[..], arr[..], i, EMPTY, width, height);
        NonLabelWriteKeepsConnected(output[..], arr[..], i, EMPTY, width, height);
        output[i] := EMPTY;
        scores' := scores[0 := scores[0] + 1];
      } else if val == UNVISITED {
        ghost var before := output[..];
        scores' := scores[labels := 0];
        GetInRange(output[..], (x, y), width, height);
        GetInRange(arr[..], (x, y), width, height);
        scores' := LabelComponentMut(output, arr, x, y, labels, scores');
        GetInRange(output[..], (x, y), width, height);
        LabelKeepsClosed(before, output[..], arr[..], labels, width, height);
        ScanNoCellHas(before, arr[..], labels, scores, i, width, height);
        LabelKeepsConnected(before, output[..], arr[..], labels, (x, y), width, height);
        ScanFresh(before, output[..], arr[..], labels, scores, scores', i);
        labels' := labels + 1;
      } else {
        ScanLabelled(output[..], arr[..], labels, scores, i);
      }
    }

    /**
     * `withinDiff`: a fresh mask of the grid that is 1 exactly at the pixels
     * of `arr` within `tolerance` of `color`, and 0 elsewhere.
     */
    method WithinDiff(arr: array3<int>, color: seq<int>, tolerance: real) returns (mask: array<int>)
      requires arr.Length0 == width && arr.Length1 == height && arr.Length2 >= 3 && |color| >= 3
      ensures fresh(mask) && mask[..] == WithinFlags(arr, color, tolerance, width * height)
    {
      mask := new int[width * height](_ => 0);
      ghost var n := 0;
      var x := 0;
      while x < width
        invariant 0 <= x <= width && n == Idx(x, 0, height) && n <= width * height
        invariant mask[..n] == WithinFlags(arr, color, tolerance, n)
        invariant forall j :: n <= j < mask.Length ==> mask[j] == 0
      {
        var y := 0;
        while y < height
          invariant 0 <= y <= height && n == Idx(x, y, height) && n <= width * height
          invariant mask[..n] == WithinFlags(arr, color, tolerance, n)
          invariant forall j :: n <= j < mask.Length ==> mask[j] == 0
        {
          IdxScanBound(x, y + 1, width, height);
          WithinCell(mask, arr, x, y, color, tolerance, n);
          n := n + 1;
          y := y + 1;
        }
        IdxNext(x, height, height);
        IdxScanBound(x + 1, 0, width, height);
        x := x + 1;
      }
      assert mask[..] == mask[..n];
    }

    /**
     * One cell of `withinDiff`: the channel loop, then a 1 at (x, y) when
     * the pixel is within the tolerance.
     */
    method WithinCell(mask: array<int>, arr: array3<int>, x: int, y: int, color: seq<int>, tolerance: real, ghost n: int)
      requires arr.Length0 == width && arr.Length1 == height && arr.Length2 >= 3 && |color| >= 3
      requires mask.Length == width * height && InGrid((x, y), width, height) && n == Idx(x, y, height) && n < mask.Length
      requires mask[..n] == WithinFlags(arr, color, tolerance, n)
      requires forall j :: n <= j < mask.Length ==> mask[j] == 0
      modifies mask
      ensures mask[..n + 1] == WithinFlags(arr, color, tolerance, n + 1)
      ensures forall j :: n + 1 <= j < mask.Length ==> mask[j] == 0
    {
      WithinFlagsNext(arr, color, tolerance, x, y);
      var val := PixelDistance(arr, x, y, color);
      if val < tolerance {
        mask[Idx(x, y, height)] := 1;
      }
      assert mask[..n + 1] == mask[..n] + [mask[n]];
    }

    /**
     * `withoutDiffCount`: the number of pixels of `arr` not within
     * `tolerance` of `color`, that is, the zeros of `withinDiff`'s mask.
     */
    method WithoutDiffCount(arr: array3<int>, color: seq<int>, tolerance: real) returns (count: int)
      requires arr.Length0 == width && arr.Length1 == height && arr.Length2 >= 3 && |color| >= 3
      ensures count == CountEq(WithinFlags(arr, color, tolerance, width * height), 0)
    {
      count := 0;
      ghost var n := 0;
      var x := 0;
      while x < width
        invariant 0 <= x <= width && n == Idx(x, 0, height) && n <= width * height
        invariant count == CountEq(WithinFlags(arr, color, tolerance, n), 0)
      {
        var y := 0;
        while y < height
          invariant 0 <= y <= height && n == Idx(x, y, height) && n <= width * height
          invariant count == CountEq(WithinFlags(arr, color, tolerance, n), 0)
        {
          WithinFlagsNext(arr, color, tolerance, x, y);
          IdxScanBound(x, y + 1, width, height);
          var val := PixelDistance(arr, x, y, color);
          if val >= tolerance {
            count := count + 1;
          }
          CountEqSnoc(WithinFlags(arr, color, tolerance, n), if Within(arr, x, y, color, tolerance) then 1 else 0, 0);
          n := n + 1;
          y := y + 1;
        }
        IdxNext(x, height, height);
        IdxScanBound(x + 1, 0, width, height);
        x := x + 1;
      }
    }

    /**
     * `innerEdges`: zeroes `output`, then writes 1 at every inner edge cell
     * of `arr`, and returns `arr` itself. When `output` is `arr`, the zeroing
     * clears the mask first, so nothing is an edge.
     */
    method InnerEdges(output: array<int>, arr: array<int>) returns (r: array<int>)
      requires output.Length == width * height && arr.Length == width * height
      modifies output
      ensures r == arr
      ensures output != arr ==> output[..] == EdgeFlags(old(arr[..]), width, height, width * height)
      ensures output == arr ==> forall i :: 0 <= i < output.Length ==> output[i] == 0
    {
      forall i | 0 <= i < output.Length {
        output[i] := 0;
      }
      ghost var a := arr[..];
      assert output != arr ==> a == old(arr[..]);
      ghost var n := 0;
      var x := 0;
      while x < width
        invariant 0 <= x <= width && n == Idx(x, 0, height) && n <= width * height
        invariant arr[..] == a && output[..n] == EdgeFlags(a, width, height, n)
        invariant forall j :: n <= j < output.Length ==> output[j] == 0
      {
        EdgeColumn(output, arr, x, n, a);
        n := n + height;
        IdxNext(x, height, height);
        IdxScanBound(x + 1, 0, width, height);
        x := x + 1;
      }
      assert output[..] == output[..n];
      if output == arr {
        EdgeFlagsOfZeros(a, width, height, n);
      }
      r := arr;
    }

    /** Column x of `innerEdges`: a 1 at each inner edge cell of the column. */
    method EdgeColumn(output: array<int>, arr: array<int>, x: int, ghost n: int, ghost a: seq<int>)
      requires output.Length == width * height && arr.Length == width * height
      requires 0 <= x < width && n == Idx(x, 0, height)
      requires arr[..] == a && output[..n] == EdgeFlags(a, width, height, n)
      requires forall j :: n <= j < output.Length ==> output[j] == 0
      modifies output
      ensures n + height <= width * height
      ensures arr[..] == a && output[..n + height] == EdgeFlags(a, width, height, n + height)
      ensures forall j :: n + height <= j < output.Length ==> output[j] == 0
    {
      IdxScanBound(x + 1, 0, width, height);
      IdxNext(x, height, height);
      var y := 0;
      while y < height
        invariant 0 <= y <= height && n + y == Idx(x, y, height) && n + y <= width * height
        invariant arr[..] == a && output[..n + y] == EdgeFlags(a, width, height, n + y)
        invariant forall j :: n + y <= j < output.Length ==> output[j] == 0
      {
        IdxScanBound(x, y + 1, width, height);
        EdgeCell(output, arr, x, y, n + y, a);
        y := y + 1;
      }
    }

    /** One cell of `innerEdges`: a 1 at (x, y) when it is an inner edge cell of the mask. */
    method EdgeCell(output: array<int>, arr: array<int>, x: int, y: int, ghost n: int, ghost a: seq<int>)
      requires output.Length == width * height && arr.Length == width * height
      requires InGrid((x, y), width, height) && n == Idx(x, y, height) && n < output.Length
      requires arr[..] == a && output[..n] == EdgeFlags(a, width, height, n)
      requires forall j :: n <= j < output.Length ==> output[j] == 0
      modifies output
      ensures arr[..] == a && output[..n + 1] == EdgeFlags(a, width, height, n + 1)
      ensures forall j :: n + 1 <= j < output.Length ==> output[j] == 0
    {
      EdgeFlagsNext(a, x, y, width, height);
      var edge := IsInnerEdge(arr, x, y);
      if edge {
        output[Idx(x, y, height)] := 1;
      }
      assert output[..n + 1] == output[..n] + [output[n]];
    }

    /**
     * The tests `innerEdges` makes at (x, y) before it writes a 1 and
     * continues: a positive cell on a border, or with a 0 side neighbour.
     */
    method IsInnerEdge(arr: array<int>, x: int, y: int) returns (edge: bool)
      requires arr.Length == width * height && InGrid((x, y), width, height)
      ensures edge == EdgeAt(arr[..], x, y, width, height)
    {
      GetInRange(arr[..], (x, y), width, height);
      var val := arr[Idx(x, y, height)];
      edge := false;
      if val > 0 {
        if !(y > 0) {
          edge := true;
        } else if !(x + 1 < width) {
          edge := true;
        } else if !(y + 1 < height) {
          edge := true;
        } else if !(x > 0) {
          edge := true;
        } else {
          GetInRange(arr[..], (x, y - 1), width, height);
          GetInRange(arr[..], (x + 1, y), width, height);
          GetInRange(arr[..], (x, y + 1), width, height);
          GetInRange(arr[..], (x - 1, y), width, height);
          if arr[Idx(x, y - 1, height)] == 0 {
            edge := true;
          } else if arr[Idx(x + 1, y, height)] == 0 {
            edge := true;
          } else if arr[Idx(x, y + 1, height)] == 0 {
            edge := true;
          } else if arr[Idx(x - 1, y, height)] == 0 {
            edge := true;
          }
        }
      }
    }

    /**
     * The width search of `estimateWidth`. `openingError(w)` stands for the
     * number of pixels of `arr` an opening of radius w removes (the erosion
     * and dilation of the morphology module). The threshold is `sens` times
     * the pixel sum of `arr`; the result is one less than the first width in
     * 2 .. MAX_W - 1 whose error exceeds it, or MAX_W when none does, so it
     * is never MAX_W - 1.
     */
    method EstimateWidth(arr: array<int>, sens: real, openingError: int -> real) returns (w: int)
      ensures 1 <= w <= MAX_W && w != MAX_W - 1
      ensures forall v :: 2 <= v <= w && v < MAX_W ==> openingError(v) <= MaskSum(arr[..]) as real * sens
      ensures w < MAX_W ==> openingError(w + 1) > MaskSum(arr[..]) as real * sens
    {
      var threshold := MaskSum(arr[..]) as real * sens;
      w := 2;
      while w < MAX_W
        invariant 2 <= w <= MAX_W
        invariant forall v :: 2 <= v < w ==> openingError(v) <= threshold
      {
        var error := openingError(w);
        if error > threshold {
          w := w - 1;
          break;
        }
        w := w + 1;
      }
    }

    /**
     * What the `loopTrace` scan keeps before flat position n: the tracer is
     * between loops; every cell marked visited, and every cell of value 1
     * the scan has passed, has been fed to the tracer; every point fed is a
     * seed or popped by the traversal from one.
     */
    ghost predicate Traced(a: seq<int>, trav: Coord -> seq<Coord>, n: int)
      reads this, tracer, tempInt8
    {
      tracer.Idle() && tempInt8.Length == width * height
      && (forall c :: InGrid(c, width, height) && Get(tempInt8[..], c, height) != UNVISITED ==> c in tracer.fed)
      && (forall c :: InGrid(c, width, height) && Idx(c.0, c.1, height) < n && Get(a, c, height) == 1 ==> c in tracer.fed)
      && (forall i :: 0 <= i < |tracer.fed| ==> Origin(a, trav, tracer.fed[i], width, height))
    }

    /**
     * `loopTrace`. The traversal `traverseMut` is left abstract: `trav(s)`
     * is the sequence of points the stack pops after the seed s, each of
     * which is marked visited. Every emitted path is proper (two or more
     * points, adjacent or a doubled single point); every cell of value 1 is
     * among the emitted points; every emitted point is a seed or a popped
     * point.
     */
    method LoopTrace(arr: array<int>, trav: Coord -> seq<Coord>) returns (paths: seq<seq<Coord>>)
      requires arr.Length == width * height && tempInt8.Length == width * height && arr != tempInt8
      requires forall s, i :: 0 <= i < |trav(s)| ==> InGrid(trav(s)[i], width, height)
      modifies tempInt8, tracer
      ensures forall i :: 0 <= i < |paths| ==> Emitted(paths[i])
      ensures forall c :: InGrid(c, width, height) && Get(arr[..], c, height) == 1 ==> c in Joined(paths)
      ensures forall i :: 0 <= i < |Joined(paths)| ==> Origin(arr[..], trav, Joined(paths)[i], width, height)
    {
      forall i | 0 <= i < tempInt8.Length {
        tempInt8[i] := UNVISITED;
      }
      tracer.BindPaths();
      forall c | InGrid(c, width, height)
        ensures Get(tempInt8[..], c, height) == UNVISITED
      {
        GetInRange(tempInt8[..], c, width, height);
      }
      ghost var n := 0;
      var x := 0;
      while x < width
        invariant 0 <= x <= width && n == Idx(x, 0, height) && n <= width * height
        invariant Traced(arr[..], trav, n)
      {
        var y := 0;
        while y < height
          invariant 0 <= y <= height && n == Idx(x, y, height) && n <= width * height
          invariant Traced(arr[..], trav, n)
        {
          IdxScanBound(x, y + 1, width, height);
          TraceCell(arr, x, y, trav, n);
          n := n + 1;
          y := y + 1;
        }
        IdxNext(x, height, height);
        IdxScanBound(x + 1, 0, width, height);
        x := x + 1;
      }
      paths := tracer.paths;
      forall c | InGrid(c, width, height) && Get(arr[..], c, height) == 1
        ensures c in Joined(paths)
      {
        IdxInRange(c.0, c.1, width, height);
      }
    }

    /** One cell of the `loopTrace` scan: a cell of value 1 not yet visited starts a loop. */
    method TraceCell(arr: array<int>, x: int, y: int, trav: Coord -> seq<Coord>, ghost n: int)
      requires arr.Length == width * height && arr != tempInt8
      requires forall s, i :: 0 <= i < |trav(s)| ==> InGrid(trav(s)[i], width, height)
      requires InGrid((x, y), width, height) && n == Idx(x, y, height)
      requires Traced(arr[..], trav, n)
      modifies tempInt8, tracer
      ensures Traced(arr[..], trav, n + 1)
    {
      GetInRange(arr[..], (x, y), width, height);
      GetInRange(tempInt8[..], (x, y), width, height);
      var val := arr[Idx(x, y, height)];
      var lbl := tempInt8[Idx(x, y, height)];
      if val == 1 && lbl == UNVISITED {
        TraceLoop(arr, (x, y), trav, n);
      }
      forall c | InGrid(c, width, height) && Idx(c.0, c.1, height) < n + 1 && Get(arr[..], c, height) == 1
        ensures c in tracer.fed
      {
        if Idx(c.0, c.1, height) == n {
          IdxInjective(c.0, c.1, x, y, height);
        }
      }
    }

    /**
     * The loop of `loopTrace` from the seed s: `init`, then for each popped
     * point `updatePath` and the visited mark, then `endPath()`.
     */
    method TraceLoop(arr: array<int>, s: Coord, trav: Coord -> seq<Coord>, ghost n: int)
      requires arr.Length == width * height && arr != tempInt8
      requires forall s, i :: 0 <= i < |trav(s)| ==> InGrid(trav(s)[i], width, height)
      requires InGrid(s, width, height) && Get(arr[..], s, height) == 1
      requires Traced(arr[..], trav, n)
      modifies tempInt8, tracer
      ensures Traced(arr[..], trav, n) && s in tracer.fed
    {
      ghost var fed0 := tracer.fed;
      tracer.Init(s);
      var pops := [s] + trav(s);
      FeedPoints(pops, fed0 + [s]);
      tracer.EndPath(None);
      LoopOrigins(arr[..], trav, fed0, s, width, height);
      forall c | InGrid(c, width, height) && Idx(c.0, c.1, height) < n && Get(arr[..], c, height) == 1
        ensures c in tracer.fed
      {
        assert c in fed0;
      }
    }

    /** Every visited cell of the scratch grid is among the points in s. */
    ghost predicate VisitedIn(s: seq<Coord>)
      reads this, tempInt8
    {
      forall c :: InGrid(c, width, height) && Get(tempInt8[..], c, height) != UNVISITED ==> c in s
    }

    /** The `loopTrace` loop over the popped points. */
    method FeedPoints(pops: seq<Coord>, ghost fed0: seq<Coord>)
      requires tracer.Tracing() && tempInt8.Length == width * height && tracer.fed == fed0
      requires forall i :: 0 <= i < |pops| ==> InGrid(pops[i], width, height)
      requires VisitedIn(fed0)
      modifies tempInt8, tracer
      ensures tracer.Tracing() && tracer.fed == fed0 + pops
      ensures VisitedIn(tracer.fed)
    {
      var k := 0;
      ghost var fed := fed0;
      while k < |pops|
        invariant 0 <= k <= |pops| && tracer.Tracing() && tempInt8.Length == width * height
        invariant fed == fed0 + pops[..k] && tracer.fed == fed && VisitedIn(fed)
      {
        FeedPoint(pops[k]);
        PrefixSnoc(fed0, pops, k);
        fed := fed + [pops[k]];
        k := k + 1;
      }
      assert pops[..k] == pops;
    }

    /** One popped point: `updatePath`, then the visited mark. */
    method FeedPoint(coord: Coord)
      requires tracer.Tracing() && tempInt8.Length == width * height && InGrid(coord, width, height)
      requires VisitedIn(tracer.fed)
      modifies tempInt8, tracer
      ensures tracer.Tracing() && tracer.fed == old(tracer.fed) + [coord] && tempInt8.Length == width * height
      ensures VisitedIn(tracer.fed)
    {
      ghost var fed0 := tracer.fed;
      tracer.UpdatePath(coord);
      MarkVisited(coord, fed0 + [coord]);
    }

    /** The visited mark `traverseMut` documents: the popped point is set to 1. */
    method MarkVisited(coord: Coord, ghost fed: seq<Coord>)
      requires tempInt8.Length == width * height && InGrid(coord, width, height) && coord in fed
      requires forall c :: InGrid(c, width, height) && Get(tempInt8[..], c, height) != UNVISITED ==> c in fed[..|fed| - 1]
      requires fed[|fed| - 1] == coord
      modifies tempInt8
      ensures tempInt8[..] == Set(old(tempInt8[..]), coord, height, 1)
      ensures forall c :: InGrid(c, width, height) && Get(tempInt8[..], c, height) != UNVISITED ==> c in fed
    {
      GetInRange(tempInt8[..], coord, width, height);
      GetSetAll(tempInt8[..], coord, 1, width, height);
      tempInt8[Idx(coord.0, coord.1, height)] := 1;
    }

    /** The culling loop of the x-major stripes, as written: flat writes outside the data are ignored. */
    method CullColumnMut(arr: array<int>, x: int, radius: int)
      requires arr.Length == width * height
      modifies arr
      ensures arr[..] == CullAsWritten(old(arr[..]), x, radius, height)
    {
      ghost var o := arr[..];
      var iy := x - radius;
      while iy < x + radius
        invariant iy == x - radius || x - radius <= iy <= x + radius
        invariant arr[..] == ZeroFlat(o, Idx(x, x - radius, height), Idx(x, iy, height))
      {
        var i := Idx(x, iy, height);
        if 0 <= i < arr.Length {
          arr[i] := 0;
        }
        iy := iy + 1;
      }
      if radius <= 0 {
        assert arr[..] == o == ZeroFlat(o, Idx(x, x - radius, height), Idx(x, x + radius, height));
      }
    }

    /**
     * The culling loop of the y-major stripes, `arr.set(ix, y, 0)` for ix in
     * x - radius .. x + radius - 1: the pixels of row y in those columns
     * that lie inside the grid become 0, nothing else changes.
     */
    method CullRowMut(arr: array<int>, x: int, y: int, radius: int)
      requires arr.Length == width * height && 0 <= y < height
      modifies arr
      ensures OnlyZeroed(old(arr[..]), arr[..])
      ensures forall c :: InGrid(c, width, height) ==>
        Get(arr[..], c, height) == if c.1 == y && x - radius <= c.0 < x + radius then 0 else Get(old(arr[..]), c, height)
    {
      ghost var o := arr[..];
      var ix := x - radius;
      while ix < x + radius
        invariant ix == x - radius || x - radius <= ix <= x + radius
        invariant OnlyZeroed(o, arr[..])
        invariant forall c :: InGrid(c, width, height) ==>
          Get(arr[..], c, height) == if c.1 == y && x - radius <= c.0 < ix then 0 else Get(o, c, height)
      {
        var i := Idx(ix, y, height);
        RowCellWrite(arr, ix, y, i);
        ix := ix + 1;
      }
    }

    /** `arr.set(ix, y, 0)`: the write lands on the pixel (ix, y) when it is in the grid and nowhere otherwise. */
    method RowCellWrite(arr: array<int>, ix: int, y: int, i: int)
      requires arr.Length == width * height && 0 <= y < height && i == Idx(ix, y, height)
      modifies arr
      ensures OnlyZeroed(old(arr[..]), arr[..])
      ensures forall c :: InGrid(c, width, height) ==>
        Get(arr[..], c, height) == if c == (ix, y) then 0 else Get(old(arr[..]), c, height)
    {
      if 0 <= i < arr.Length {
        if ix < 0 {
          MulMono(ix + 1, 0, height);
          assert false;
        } else if ix >= width {
          MulMono(width, ix, height);
          assert false;
        }
        GetSetAll(arr[..], (ix, y), 0, width, height);
        arr[i] := 0;
      } else {
        if 0 <= ix < width {
          IdxInRange(ix, y, width, height);
          assert false;
        }
      }
    }

    /**
     * The inner `while (val > 0)` of the x-major stripes, from the positive
     * pixel (x0, y): cull, step right, stop at the grid's edge or at a pixel
     * that is not positive; the result is the last pixel of the run.
     */
    method RowRun(arr: array<int>, x0: int, y: int, radius: int, ghost o: seq<int>) returns (x1: int)
      requires arr.Length == width * height && InGrid((x0, y), width, height)
      requires Get(arr[..], (x0, y), height) > 0 && OnlyZeroed(o, arr[..])
      modifies arr
      ensures x0 <= x1 < width && OnlyZeroed(o, arr[..])
      ensures forall x :: x0 <= x <= x1 ==> Get(o, (x, y), height) > 0
      ensures CulledWithin(old(arr[..]), arr[..], x0, x1 + 1, radius, width, height)
    {
      ghost var e := arr[..];
      var x := x0;
      GetInRange(arr[..], (x, y), width, height);
      var val := arr[Idx(x, y, height)];
      while val > 0
        invariant x0 <= x < width && OnlyZeroed(o, arr[..]) && val == Get(arr[..], (x, y), height)
        invariant forall x' :: x0 <= x' < x ==> Get(o, (x', y), height) > 0
        invariant x == x0 ==> val > 0
        invariant CulledWithin(e, arr[..], x0, x, radius, width, height)
        decreases width - x
      {
        CulledWithinStep(e, arr[..], x0, x, radius, width, height);
        CullColumnMut(arr, x, radius);
        x := x + 1;
        if x >= width {
          break;
        }
        GetInRange(arr[..], (x, y), width, height);
        val := arr[Idx(x, y, height)];
      }
      x1 := x - 1;
    }

    /**
     * The inner `while (val > 0)` of the y-major stripes, from the positive
     * pixel (x, y0): cull, step down, stop at the grid's edge or at a pixel
     * that is not positive. With a radius of at least 1 each pixel of the
     * run is culled itself, so every flat position up to the run's end
     * holds no positive value.
     */
    method ColumnRun(arr: array<int>, x: int, y0: int, radius: int, ghost o: seq<int>) returns (y1: int)
      requires arr.Length == width * height && InGrid((x, y0), width, height)
      requires Get(arr[..], (x, y0), height) > 0 && OnlyZeroed(o, arr[..])
      requires radius >= 1 ==> forall j :: 0 <= j < arr.Length && j < Idx(x, y0, height) ==> arr[j] <= 0
      modifies arr
      ensures y0 <= y1 < height && OnlyZeroed(o, arr[..])
      ensures forall y :: y0 <= y <= y1 ==> Get(o, (x, y), height) > 0
      ensures radius >= 1 ==> forall j :: 0 <= j < arr.Length && j < Idx(x, y1 + 1, height) ==> arr[j] <= 0
      ensures forall c :: InGrid(c, width, height) && Get(arr[..], c, height) != Get(old(arr[..]), c, height) ==>
        y0 <= c.1 <= y1 && x - radius <= c.0 < x + radius
    {
      ghost var e := arr[..];
      var y := y0;
      GetInRange(arr[..], (x, y), width, height);
      var val := arr[Idx(x, y, height)];
      while val > 0
        invariant y0 <= y < height && OnlyZeroed(o, arr[..]) && val == Get(arr[..], (x, y), height)
        invariant forall y' :: y0 <= y' < y ==> Get(o, (x, y'), height) > 0
        invariant y == y0 ==> val > 0
        invariant radius >= 1 ==> forall j :: 0 <= j < arr.Length && j < Idx(x, y, height) ==> arr[j] <= 0
        invariant forall c :: InGrid(c, width, height) && Get(arr[..], c, height) != Get(e, c, height) ==>
          y0 <= c.1 < y && x - radius <= c.0 < x + radius
        decreases height - y
      {
        CullRowMut(arr, x, y, radius);
        GetInRange(arr[..], (x, y), width, height);
        IdxNext(x, y, height);
        y := y + 1;
        if y >= height {
          break;
        }
        GetInRange(arr[..], (x, y), width, height);
        val := arr[Idx(x, y, height)];
      }
      y1 := y - 1;
    }

    /** The bounding-box scan opening `stripMaskMut`, proved against `BoxOf` (see `BoxTight`). */
    method BoundingBox(arr: array<int>) returns (b: Box)
      requires arr.Length == width * height
      ensures b == BoxOf(arr[..], width, height, width * height)
    {
      b := Box(width, 0, height, 0);
      ghost var n := 0;
      var x := 0;
      while x < width
        invariant 0 <= x <= width && n == Idx(x, 0, height) && n <= width * height
        invariant b == BoxOf(arr[..], width, height, n)
      {
        var y := 0;
        while y < height
          invariant 0 <= y <= height && n == Idx(x, y, height) && n <= width * height
          invariant b == BoxOf(arr[..], width, height, n)
        {
          IdxScanBound(x, y + 1, width, height);
          IdxSplit(x, y, width, height);
          var val := arr[Idx(x, y, height)];
          if val > 0 {
            if y < b.yMin {
              b := b.(yMin := y);
            }
            if y > b.yMax {
              b := b.(yMax := y);
            }
            if x < b.xMin {
              b := b.(xMin := x);
            }
            if x > b.xMax {
              b := b.(xMax := x);
            }
          }
          n := n + 1;
          y := y + 1;
        }
        IdxNext(x, height, height);
        IdxScanBound(x + 1, 0, width, height);
        x := x + 1;
      }
    }

    /**
     * The x-major branch of `stripMaskMut`: rows outer, x inner; each run of
     * positive pixels on a row becomes a stripe, each step culling with
     * `CullColumnMut` as the source writes it.
     */
    method StripeRows(arr: array<int>, radius: int) returns (paths: seq<seq<Coord>>)
      requires arr.Length == width * height
      modifies arr
      ensures OnlyZeroed(old(arr[..]), arr[..])
      ensures forall k :: 0 <= k < |paths| ==> RowStripe(paths[k], old(arr[..]), width, height)
      ensures forall c :: InGrid(c, width, height) && Get(old(arr[..]), c, height) > 0 ==>
        RowCovered(paths, c, radius, height)
    {
      ghost var o := arr[..];
      paths := [];
      var y := 0;
      while y < height
        invariant 0 <= y <= height && OnlyZeroed(o, arr[..])
        invariant forall k :: 0 <= k < |paths| ==> RowStripe(paths[k], o, width, height)
        invariant RowsSwept(paths, o, arr[..], radius, 0, y, width, height)
      {
        var x := 0;
        while x < width
          invariant 0 <= x <= width && OnlyZeroed(o, arr[..])
          invariant forall k :: 0 <= k < |paths| ==> RowStripe(paths[k], o, width, height)
          invariant RowsSwept(paths, o, arr[..], radius, x, y, width, height)
        {
          paths, x := RowCell(arr, x, y, radius, paths, o);
          x := x + 1;
        }
        y := y + 1;
      }
    }

    /**
     * One step of the x-major scan at (x, y): a positive pixel starts a
     * stripe along its run, which is appended, and the scan goes on after
     * the run's last column x'; otherwise x' is x. The stripes keep
     * accounting for every changed pixel and every positive pixel passed.
     */
    method RowCell(arr: array<int>, x: int, y: int, radius: int, paths: seq<seq<Coord>>, ghost o: seq<int>)
      returns (paths': seq<seq<Coord>>, x': int)
      requires arr.Length == width * height && InGrid((x, y), width, height) && OnlyZeroed(o, arr[..])
      requires forall k :: 0 <= k < |paths| ==> RowStripe(paths[k], o, width, height)
      requires RowsSwept(paths, o, arr[..], radius, x, y, width, height)
      modifies arr
      ensures x <= x' < width && OnlyZeroed(o, arr[..])
      ensures forall k :: 0 <= k < |paths'| ==> RowStripe(paths'[k], o, width, height)
      ensures RowsSwept(paths', o, arr[..], radius, x' + 1, y, width, height)
    {
      GetInRange(arr[..], (x, y), width, height);
      var val := arr[Idx(x, y, height)];
      paths', x' := paths, x;
      if val > 0 {
        ghost var before := arr[..];
        var x1 := RowRun(arr, x, y, radius, o);
        RowsSweptRun(paths, o, before, arr[..], radius, x, y, x1, width, height);
        paths' := paths + [[(x, y), (x1, y)]];
        x' := x1;
      } else {
        RowsSweptSkip(paths, o, arr[..], radius, x, y, width, height);
      }
    }

    /**
     * The y-major branch of `stripMaskMut`: columns outer, y inner, in flat
     * order; each run of positive pixels on a column becomes a stripe. With
     * a radius of at least 1 every pixel is culled once the scan has passed
     * it, so the mask ends with no positive pixel.
     */
    method StripeColumns(arr: array<int>, radius: int) returns (paths: seq<seq<Coord>>)
      requires arr.Length == width * height
      modifies arr
      ensures OnlyZeroed(old(arr[..]), arr[..])
      ensures forall k :: 0 <= k < |paths| ==> ColumnStripe(paths[k], old(arr[..]), width, height)
      ensures forall c :: InGrid(c, width, height) && Get(old(arr[..]), c, height) > 0 ==>
        ColumnCovered(paths, c, radius)
      ensures radius >= 1 ==> forall j :: 0 <= j < arr.Length ==> arr[j] <= 0
    {
      ghost var o := arr[..];
      paths := [];
      var x := 0;
      while x < width
        invariant 0 <= x <= width && OnlyZeroed(o, arr[..])
        invariant forall k :: 0 <= k < |paths| ==> ColumnStripe(paths[k], o, width, height)
        invariant radius >= 1 ==> forall j :: 0 <= j < arr.Length && j < Idx(x, 0, height) ==> arr[j] <= 0
        invariant ColumnsSwept(paths, o, arr[..], radius, Idx(x, 0, height), width, height)
      {
        var y := 0;
        while y < height
          invariant 0 <= y <= height && OnlyZeroed(o, arr[..])
          invariant forall k :: 0 <= k < |paths| ==> ColumnStripe(paths[k], o, width, height)
          invariant radius >= 1 ==> forall j :: 0 <= j < arr.Length && j < Idx(x, y, height) ==> arr[j] <= 0
          invariant ColumnsSwept(paths, o, arr[..], radius, Idx(x, y, height), width, height)
        {
          paths, y := ColumnCell(arr, x, y, radius, paths, o);
          y := y + 1;
        }
        IdxNext(x, height, height);
        x := x + 1;
      }
      ColumnsSweptAll(paths, o, arr[..], radius, width, height);
    }

    /**
     * One step of the y-major scan at (x, y): a positive pixel starts a
     * stripe down its run, which is appended, and the scan goes on after the
     * run's last row y'; otherwise y' is y. The stripes keep accounting for
     * every changed pixel and every positive pixel passed.
     */
    method ColumnCell(arr: array<int>, x: int, y: int, radius: int, paths: seq<seq<Coord>>, ghost o: seq<int>)
      returns (paths': seq<seq<Coord>>, y': int)
      requires arr.Length == width * height && InGrid((x, y), width, height) && OnlyZeroed(o, arr[..])
      requires forall k :: 0 <= k < |paths| ==> ColumnStripe(paths[k], o, width, height)
      requires radius >= 1 ==> forall j :: 0 <= j < arr.Length && j < Idx(x, y, height) ==> arr[j] <= 0
      requires ColumnsSwept(paths, o, arr[..], radius, Idx(x, y, height), width, height)
      modifies arr
      ensures y <= y' < height && OnlyZeroed(o, arr[..])
      ensures forall k :: 0 <= k < |paths'| ==> ColumnStripe(paths'[k], o, width, height)
      ensures radius >= 1 ==> forall j :: 0 <= j < arr.Length && j < Idx(x, y' + 1, height) ==> arr[j] <= 0
      ensures ColumnsSwept(paths', o, arr[..], radius, Idx(x, y' + 1, height), width, height)
    {
      GetInRange(arr[..], (x, y), width, height);
      var val := arr[Idx(x, y, height)];
      paths', y' := paths, y;
      if val > 0 {
        ghost var before := arr[..];
        var y1 := ColumnRun(arr, x, y, radius, o);
        ColumnsSweptRun(paths, o, before, arr[..], radius, x, y, y1, width, height);
        paths' := paths + [[(x, y), (x, y1)]];
        y' := y1;
      } else {
        ColumnsSweptSkip(paths, o, arr[..], radius, x, y, width, height);
        IdxNext(x, y, height);
      }
    }

    /**
     * `stripMaskMut`: the bounding box decides the major axis (x-major when
     * the box is no taller than it is wide), then the stripes of that axis
     * are written with radius (brushWidth >> 1) + 1.
     */
    method StripMaskMut(arr: array<int>, brushWidth: int) returns (paths: seq<seq<Coord>>)
      requires arr.Length == width * height
      modifies arr
      ensures OnlyZeroed(old(arr[..]), arr[..])
      ensures var b := BoxOf(old(arr[..]), width, height, width * height);
        if b.yMax - b.yMin <= b.xMax - b.xMin then
          (forall k :: 0 <= k < |paths| ==> RowStripe(paths[k], old(arr[..]), width, height))
          && (forall c :: InGrid(c, width, height) && Get(old(arr[..]), c, height) > 0 ==>
                RowCovered(paths, c, Shr(brushWidth, 1) + 1, height))
        else
          (forall k :: 0 <= k < |paths| ==> ColumnStripe(paths[k], old(arr[..]), width, height))
          && (forall c :: InGrid(c, width, height) && Get(old(arr[..]), c, height) > 0 ==>
                ColumnCovered(paths, c, Shr(brushWidth, 1) + 1))
          && (0 <= brushWidth < I31 ==> forall j :: 0 <= j < arr.Length ==> arr[j] <= 0)
    {
      var radius := Shr(brushWidth, 1) + 1;
      var b := BoundingBox(arr);
      var boxWidth := b.xMax - b.xMin;
      var boxHeight := b.yMax - b.yMin;
      if boxHeight <= boxWidth {
        paths := StripeRows(arr, radius);
      } else {
        paths := StripeColumns(arr, radius);
      }
    }
  }
}
