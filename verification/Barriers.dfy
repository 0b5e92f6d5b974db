/** Adding barriers to a layer: along a straight line of corners, or along the staircase that follows a slanted line. */
module Barriers {
  import opened Arithmetic
  import opened Cells
  import opened Slices
  import opened Layers
  import opened Staircase

  /** The slice with more barriers, and nothing else changed. */
  ghost function WithWalls(s: Slice, w: Walls): (t: Slice)
    ensures t.nx == s.nx && t.ny == s.ny && t.grid.Keys == s.grid.Keys
  {
    s.(grid := map p | p in s.grid ::
      s.grid[p].(leftBarrier := s.grid[p].leftBarrier || p in w.left,
                 bottomBarrier := s.grid[p].bottomBarrier || p in w.bottom))
  }

  lemma WithWallsTwice(s: Slice, v: Walls, w: Walls)
    ensures WithWalls(WithWalls(s, v), w) == WithWalls(s, Joined(v, w))
  {
    assert WithWalls(WithWalls(s, v), w).grid == WithWalls(s, Joined(v, w)).grid;
  }

  lemma WithNoWalls(s: Slice)
    ensures WithWalls(s, NO_WALLS) == s
  {
    assert WithWalls(s, NO_WALLS).grid == s.grid;
  }

  ghost predicate CornersOf(s: Slice, w: Walls)
    requires s.Wf()
  {
    w.left <= s.grid.Keys && w.bottom <= s.grid.Keys
  }

  /** Barriers touch neither the values nor the edges. */
  lemma WithWallsKeeps(s: Slice, w: Walls)
    requires s.Wf() && CornersOf(s, w)
    ensures
      var t := WithWalls(s, w);
      && t.Wf() && t.Values() == s.Values() && t.Barriers() == Joined(s.Barriers(), w)
      && (t.LooseEdges() <==> s.LooseEdges())
      && (t.ExactEdges() <==> s.ExactEdges())
  {
    var t := WithWalls(s, w);
    assert t.Barriers().left == s.Barriers().left + w.left;
    assert t.Barriers().bottom == s.Barriers().bottom + w.bottom;
    forall p, d: Dir | InBox(s.nx, s.ny, p)
      ensures t.LooseEdge(p, d) == s.LooseEdge(p, d) && t.ExactEdge(p, d) == s.ExactEdge(p, d)
    {
    }
    assert t.PlainPadding() == s.PlainPadding();
  }

  lemma OneMoreLeft(s: Slice, i: int, low: int, j: int)
    requires Pos(i, j) in s.grid && low <= j
    ensures
      var t := WithWalls(s, Walls(set k | low <= k < j :: Pos(i, k), {}));
      t.(grid := t.grid[Pos(i, j) := t.grid[Pos(i, j)].(leftBarrier := true)]) ==
        WithWalls(s, Walls(set k | low <= k < j + 1 :: Pos(i, k), {}))
  {
    var t := WithWalls(s, Walls(set k | low <= k < j :: Pos(i, k), {}));
    assert t.grid[Pos(i, j) := t.grid[Pos(i, j)].(leftBarrier := true)] ==
           WithWalls(s, Walls(set k | low <= k < j + 1 :: Pos(i, k), {})).grid;
  }

  lemma OneMoreBottom(s: Slice, j: int, low: int, i: int)
    requires Pos(i, j) in s.grid && low <= i
    ensures
      var t := WithWalls(s, Walls({}, set k | low <= k < i :: Pos(k, j)));
      t.(grid := t.grid[Pos(i, j) := t.grid[Pos(i, j)].(bottomBarrier := true)]) ==
        WithWalls(s, Walls({}, set k | low <= k < i + 1 :: Pos(k, j)))
  {
    var t := WithWalls(s, Walls({}, set k | low <= k < i :: Pos(k, j)));
    assert t.grid[Pos(i, j) := t.grid[Pos(i, j)].(bottomBarrier := true)] ==
           WithWalls(s, Walls({}, set k | low <= k < i + 1 :: Pos(k, j))).grid;
  }

  /** The layer is valid again once walls have been added to it. */
  lemma ValidWithWalls(layer: Layer, s: Slice, w: Walls)
    requires layer.Tied() && layer.slice == WithWalls(s, w) && s.Wf() && CornersOf(s, w)
    requires s.LooseEdges() && layer.cellSum == Total(s.Values(), s.nx, s.ny)
    ensures layer.Valid()
  {
    WithWallsKeeps(s, w);
  }

  /** A barrier along a straight line of corners; a line that is not straight is refused. */
  method AddIjBarrier(layer: Layer, i1: int, j1: int, i2: int, j2: int) returns (ok: bool)
    requires layer.Valid()
    requires 0 <= i1 <= layer.nx && 0 <= i2 <= layer.nx && 0 <= j1 <= layer.ny && 0 <= j2 <= layer.ny
    modifies layer`slice, layer.cells
    ensures layer.Valid()
    ensures ok == (i1 == i2 || j1 == j2)
    ensures layer.slice ==
            if ok then WithWalls(old(layer.slice), SegmentWalls(Pos(i1, j1), Pos(i2, j2))) else old(layer.slice)
  {
    if j1 != j2 && i1 != i2 { return false; }
    ghost var s := layer.slice;
    ok := true;
    if i1 == i2 {
      AddLeftBarriers(layer, i1, Min(j1, j2), Max(j1, j2));
    } else {
      AddBottomBarriers(layer, j1, Min(i1, i2), Max(i1, i2));
    }
    ValidWithWalls(layer, s, SegmentWalls(Pos(i1, j1), Pos(i2, j2)));
  }

  method AddLeftBarriers(layer: Layer, i: int, low: int, high: int)
    requires layer.Tied() && 0 <= i <= layer.nx && 0 <= low <= high <= layer.ny
    modifies layer`slice, layer.cells
    ensures layer.Tied()
    ensures layer.slice == WithWalls(old(layer.slice), Walls(set k | low <= k < high :: Pos(i, k), {}))
  {
    ghost var s := layer.slice;
    NothingAdded(s, i, low);
    for j := low to high
      invariant layer.Tied() && layer.slice == WithWalls(s, Walls(set k | low <= k < j :: Pos(i, k), {}))
    {
      assert InBox(layer.nx + 1, layer.ny + 1, Pos(i, j));
      OneMoreLeft(s, i, low, j);
      layer.Put(i, j, layer.cells[i, j].(leftBarrier := true));
    }
  }

  method AddBottomBarriers(layer: Layer, j: int, low: int, high: int)
    requires layer.Tied() && 0 <= j <= layer.ny && 0 <= low <= high <= layer.nx
    modifies layer`slice, layer.cells
    ensures layer.Tied()
    ensures layer.slice == WithWalls(old(layer.slice), Walls({}, set k | low <= k < high :: Pos(k, j)))
  {
    ghost var s := layer.slice;
    NothingAdded(s, j, low);
    for i := low to high
      invariant layer.Tied() && layer.slice == WithWalls(s, Walls({}, set k | low <= k < i :: Pos(k, j)))
    {
      assert InBox(layer.nx + 1, layer.ny + 1, Pos(i, j));
      OneMoreBottom(s, j, low, i);
      layer.Put(i, j, layer.cells[i, j].(bottomBarrier := true));
    }
  }

  lemma NothingAdded(s: Slice, n: int, low: int)
    ensures WithWalls(s, Walls(set k | low <= k < low :: Pos(n, k), {})) == s
    ensures WithWalls(s, Walls({}, set k | low <= k < low :: Pos(k, n))) == s
  {
    WithNoWalls(s);
    assert (set k | low <= k < low :: Pos(n, k)) == {};
    assert (set k | low <= k < low :: Pos(k, n)) == {};
  }

  /** The number of corners, and the number of a corner, counting row by row. */
  function CornerCount(nx: nat, ny: nat): nat {
    (nx + 1) * (ny + 1)
  }

  function CornerIndex(nx: nat, i: int, j: int): int {
    i + j * (nx + 1)
  }

  /** The slope of the line through two corners, and its height at column zero. */
  function Slope(p1: Pos, p2: Pos): real
    requires p1.i != p2.i
  {
    (p2.j - p1.j) as real / (p2.i - p1.i) as real
  }

  function Intercept(p1: Pos, p2: Pos): real
    requires p1.i != p2.i
  {
    p1.j as real - Slope(p1, p2) * p1.i as real
  }

  /** The corner with a given number. */
  function CornerOf(nx: nat, c: nat): Pos {
    Pos(c % (nx + 1), c / (nx + 1))
  }

  lemma CornerNumber(nx: nat, p: Pos)
    requires 0 <= p.i <= nx && 0 <= p.j
    ensures 0 <= CornerIndex(nx, p.i, p.j)
    ensures CornerOf(nx, CornerIndex(nx, p.i, p.j)) == p
  {
    DivMod(p.i, p.j, nx + 1);
  }

  /** The numbers of the corners follow their order row by row. */
  lemma CornersFollowOrder(nx: nat, p: Pos, q: Pos)
    requires 0 <= p.i <= nx && 0 <= p.j && 0 <= q.i <= nx && 0 <= q.j
    ensures CornerIndex(nx, p.i, p.j) < CornerIndex(nx, q.i, q.j) <==> Before(p, q)
  {
    LexicographicOrder(p.i, p.j, q.i, q.j, nx + 1);
  }

  lemma CornerInRange(nx: nat, ny: nat, c: nat)
    requires c < CornerCount(nx, ny)
    ensures 0 <= CornerOf(nx, c).i <= nx && 0 <= CornerOf(nx, c).j <= ny
    ensures c == CornerIndex(nx, CornerOf(nx, c).i, CornerOf(nx, c).j)
  {
    Quotient(c, nx + 1, ny + 1);
  }

  /** A straight barrier between two numbered corners. */
  method AddBarrier(layer: Layer, c1: nat, c2: nat) returns (ok: bool)
    requires layer.Valid()
    requires c1 < CornerCount(layer.nx, layer.ny) && c2 < CornerCount(layer.nx, layer.ny)
    modifies layer`slice, layer.cells
    ensures layer.Valid()
    ensures
      var p1, p2 := CornerOf(layer.nx, c1), CornerOf(layer.nx, c2);
      && ok == (p1.i == p2.i || p1.j == p2.j)
      && layer.slice == if ok then WithWalls(old(layer.slice), SegmentWalls(p1, p2)) else old(layer.slice)
  {
    hide *;
    var dimx := layer.nx + 1;
    var j1, i1 := c1 / dimx, c1 % dimx;
    var j2, i2 := c2 / dimx, c2 % dimx;
    CornerInRange(layer.nx, layer.ny, c1);
    CornerInRange(layer.nx, layer.ny, c2);
    CornerParts(layer.nx, c1);
    CornerParts(layer.nx, c2);
    ok := AddIjBarrier(layer, i1, j1, i2, j2);
  }

  lemma CornerParts(nx: nat, c: nat)
    ensures CornerOf(nx, c) == Pos(c % (nx + 1), c / (nx + 1))
  {
  }

  /** The walls of a barrier between two corners. */
  ghost function BarrierWalls(p1: Pos, p2: Pos): Walls {
    PathWalls(BarrierPath(p1, p2))
  }

  /** One more segment of the staircase: what is still to be added shrinks by it. */
  lemma SegmentAdded(s: Slice, p1: Pos, p2: Pos, p: Pos, n: nat)
    requires p1.i != p2.i && p1.j != p2.j && n > 0
    ensures
      var q := Next(p1, p2, p);
      WithWalls(WithWalls(s, SegmentWalls(p, q)), PathWalls(Stairs(p1, p2, q, n - 1))) ==
        WithWalls(s, PathWalls(Stairs(p1, p2, p, n)))
  {
    var q := Next(p1, p2, p);
    var path, rest := Stairs(p1, p2, p, n), Stairs(p1, p2, q, n - 1);
    assert path == [p] + rest && path[1..] == rest;
    assert PathWalls(path) == Joined(SegmentWalls(p, q), PathWalls(rest));
    hide *;
    WithWallsTwice(s, SegmentWalls(p, q), PathWalls(rest));
  }

  lemma StraightPath(p1: Pos, p2: Pos)
    requires p1.i == p2.i || p1.j == p2.j
    ensures BarrierWalls(p1, p2) == SegmentWalls(p1, p2)
  {
    assert PathWalls([p1, p2][1..]) == NO_WALLS;
  }

  lemma NothingLeft(s: Slice, p1: Pos, p2: Pos, p: Pos)
    requires p1.i != p2.i && p1.j != p2.j
    ensures WithWalls(s, PathWalls(Stairs(p1, p2, p, 0))) == s
  {
    WithNoWalls(s);
  }

  /** The test of the loop: the corner reached with `u` and `v` steps left, and the step it takes. */
  lemma LoopStep(nx: nat, ny: nat, p1: Pos, p2: Pos, p: Pos, u: nat, v: nat)
    requires p1.i != p2.i && p1.j != p2.j && Ahead(p1, p2, p, u, v) && NearLine(p1, p2, p)
    requires 0 <= p1.i <= nx && 0 <= p2.i <= nx && 0 <= p1.j <= ny && 0 <= p2.j <= ny
    requires p != p2
    ensures
      var q := Next(p1, p2, p);
      && u + v > 0
      && (if StepsAcross(Abs(p2.i - p1.i), Abs(p2.j - p1.j), u, v)
          then u > 0 && Ahead(p1, p2, q, u - 1, v) && q == Pos(p.i + Sign(p2.i - p1.i), p.j)
          else v > 0 && Ahead(p1, p2, q, u, v - 1) && q == Pos(p.i, p.j + Sign(p2.j - p1.j)))
      && NearLine(p1, p2, q) && 0 <= q.i <= nx && 0 <= q.j <= ny
      && (p.i == q.i || p.j == q.j)
  {
    SignTimes(p2.i - p1.i, u);
    SignTimes(p2.j - p1.j, v);
    assert u + v > 0;
    NextAhead(p1, p2, p, u, v);
    var q := Next(p1, p2, p);
    hide Cross, Next, StepsAcross, Ahead;
    if StepsAcross(Abs(p2.i - p1.i), Abs(p2.j - p1.j), u, v) {
      AheadInRectangle(p1, p2, q, u - 1, v);
    } else {
      AheadInRectangle(p1, p2, q, u, v - 1);
    }
  }

  /** The comparison of distances in the loop is the step rule of the staircase. */
  lemma LoopTest(p1: Pos, p2: Pos, a: real, b: real, p: Pos)
    requires p1.i != p2.i && p1.j != p2.j
    requires a == Slope(p1, p2) && b == Intercept(p1, p2)
    ensures
      var di, dj := Sign(p2.i - p1.i), Sign(p2.j - p1.j);
      Next(p1, p2, p) ==
        if LineOffset(a, -1.0, b, p.i + di, p.j) <= LineOffset(a, -1.0, b, p.i, p.j + dj)
        then Pos(p.i + di, p.j) else Pos(p.i, p.j + dj)
  {
    var di, dj := Sign(p2.i - p1.i), Sign(p2.j - p1.j);
    OffsetsCompare(p1, p2, a, b, p.i + di, p.j, p.i, p.j + dj);
    hide Cross, LineOffset, Sign;
  }

  lemma LoopStarts(p1: Pos, p2: Pos)
    requires p1.i != p2.i && p1.j != p2.j
    ensures Ahead(p1, p2, p1, Abs(p2.i - p1.i), Abs(p2.j - p1.j)) && NearLine(p1, p2, p1)
    ensures BarrierWalls(p1, p2) == PathWalls(Stairs(p1, p2, p1, Abs(p2.i - p1.i) + Abs(p2.j - p1.j)))
  {
    AheadOfStart(p1, p2);
    StaircaseFollowsLine(p1, p2);
    hide NearLine, Ahead, PathWalls, Stairs, Sign;
    assert BarrierPath(p1, p2)[0] == p1;
  }

  lemma LoopEnds(nx: nat, p1: Pos, p2: Pos, p: Pos, u: nat, v: nat)
    requires p1.i != p2.i && p1.j != p2.j && Ahead(p1, p2, p, u, v)
    ensures p == p2 ==> u + v == 0
  {
    SignTimes(p2.i - p1.i, u);
    SignTimes(p2.j - p1.j, v);
  }

  /** A barrier along the straight line between two corners, or along the staircase that follows the slanted line. */
  method AddInterpBarrier(layer: Layer, c1: nat, c2: nat)
    requires layer.Valid()
    requires c1 < CornerCount(layer.nx, layer.ny) && c2 < CornerCount(layer.nx, layer.ny)
    modifies layer`slice, layer.cells
    ensures layer.Valid()
    ensures layer.slice == WithWalls(old(layer.slice), BarrierWalls(CornerOf(layer.nx, c1), CornerOf(layer.nx, c2)))
  {
    hide *;
    var dimx := layer.nx + 1;
    var j1, i1 := c1 / dimx, c1 % dimx;
    var j2, i2 := c2 / dimx, c2 % dimx;
    ghost var p1, p2, s := Pos(i1, j1), Pos(i2, j2), layer.slice;
    CornerInRange(layer.nx, layer.ny, c1);
    CornerInRange(layer.nx, layer.ny, c2);
    CornerParts(layer.nx, c1);
    CornerParts(layer.nx, c2);
    if j1 == j2 || i1 == i2 {
      StraightPath(p1, p2);
      var ok := AddBarrier(layer, c1, c2);
    } else {
      var di, dj := Sign(i2 - i1), Sign(j2 - j1);
      var a, b := Slope(Pos(i1, j1), Pos(i2, j2)), Intercept(Pos(i1, j1), Pos(i2, j2));
      var i, j, c := i1, j1, c1;
      ghost var u, v := Abs(p2.i - p1.i), Abs(p2.j - p1.j);
      ghost var walls := BarrierWalls(p1, p2);
      LoopStarts(p1, p2);
      while c != c2
        invariant layer.Valid()
        invariant 0 <= i <= layer.nx && 0 <= j <= layer.ny && c == CornerIndex(layer.nx, i, j)
        invariant Ahead(p1, p2, Pos(i, j), u, v) && NearLine(p1, p2, Pos(i, j))
        invariant WithWalls(layer.slice, PathWalls(Stairs(p1, p2, Pos(i, j), u + v))) == WithWalls(s, walls)
        decreases u + v
      {
        ghost var p := Pos(i, j);
        CornerNumber(layer.nx, p);
        LoopStep(layer.nx, layer.ny, p1, p2, p, u, v);
        SegmentAdded(layer.slice, p1, p2, p, u + v);
        LoopTest(p1, p2, a, b, p);
        var dx := LineOffset(a, -1.0, b, i + di, j);
        var dy := LineOffset(a, -1.0, b, i, j + dj);
        if dx <= dy {
          i := i + di;
        } else {
          j := j + dj;
        }
        if StepsAcross(Abs(p2.i - p1.i), Abs(p2.j - p1.j), u, v) { u := u - 1; } else { v := v - 1; }
        CornerBelow(layer.nx, layer.ny, Pos(i, j));
        CornerBelow(layer.nx, layer.ny, p);
        var ok := AddBarrier(layer, c, CornerIndex(layer.nx, i, j));
        c := CornerIndex(layer.nx, i, j);
      }
      CornerNumber(layer.nx, Pos(i, j));
      LoopEnds(layer.nx, p1, p2, Pos(i, j), u, v);
      NothingLeft(layer.slice, p1, p2, Pos(i, j));
    }
  }

  lemma CornerBelow(nx: nat, ny: nat, p: Pos)
    requires 0 <= p.i <= nx && 0 <= p.j <= ny
    ensures 0 <= CornerIndex(nx, p.i, p.j) < CornerCount(nx, ny)
    ensures CornerOf(nx, CornerIndex(nx, p.i, p.j)) == p
  {
    CornerNumber(nx, p);
    assert p.j * (nx + 1) <= ny * (nx + 1);
  }
}
