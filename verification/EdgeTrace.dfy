/** Tracing the boundary of a block of equal cells: the walk as the cached edge values steer it. */
module EdgeTrace {
  import opened Prelude
  import opened Cells
  import opened Reachability
  import opened Slices
  import opened Layers
  import opened BoundaryWalk

  /** Which edge values can be read: those of the cells, and two sides of the padding. */
  predicate Readable(nx: nat, ny: nat, e: Side) {
    && 0 <= e.cell.i <= nx && 0 <= e.cell.j <= ny
    && (e.cell.i == nx ==> e.cell.j != ny && e.dir == LeftEdge)
    && (e.cell.j == ny ==> e.cell.i != nx && e.dir == BottomEdge)
  }

  /** A side whose cached edge carries the traced value. */
  ghost predicate Matches(s: Slice, e: Side, v: int)
    requires s.Wf() && Readable(s.nx, s.ny, e)
  {
    s.grid[e.cell].edges.Get(e.dir) == Signed(e.dir, v)
  }

  /** Tries one side: `None` if its edge cannot be read. */
  ghost function Try(s: Slice, v: int, e: Side): Option<bool>
    requires s.Wf()
  {
    if Readable(s.nx, s.ny, e) then Some(Matches(s, e, v)) else None
  }

  /** A side on which the cached edges show the traced value. */
  ghost predicate Cached(s: Slice, v: int, e: Side)
    requires s.Wf()
  {
    Try(s, v, e) == Some(true)
  }

  ghost predicate AllCached(s: Slice, v: int, walk: seq<Side>)
    requires s.Wf()
  {
    forall k :: 0 <= k < |walk| ==> Cached(s, v, walk[k])
  }

  /** The side that the cached edges say comes next; `None` if an edge cannot be read or no side matches. */
  ghost function NextByEdges(s: Slice, v: int, e: Side): Option<Side>
    requires s.Wf()
  {
    if Try(s, v, TurnLeft(e)) == None then None
    else if Try(s, v, TurnLeft(e)) == Some(true) then Some(TurnLeft(e))
    else if Try(s, v, StraightOn(e)) == None then None
    else if Try(s, v, StraightOn(e)) == Some(true) then Some(StraightOn(e))
    else if Try(s, v, TurnRight(e)) == Some(true) then Some(TurnRight(e))
    else None
  }

  /** Loose edges know of no other sides: an edge of a cell that shows the value is on the boundary. */
  lemma CachedIsBoundary(s: Slice, v: int, e: Side)
    requires s.Wf() && s.LooseEdges() && InBox(s.nx, s.ny, e.cell) && Cached(s, v, e)
    requires v != 0 || s.grid[e.cell].value == v
    ensures Boundary(s.Values(), v, e)
  {
    assert s.LooseEdge(e.cell, e.dir);
    assert Across(e.cell, e.dir) in s.Values() ==> InBox(s.nx, s.ny, Across(e.cell, e.dir));
  }

  /** The edges of a cell can be read. */
  lemma CellIsReadable(s: Slice, v: int, e: Side)
    requires s.Wf() && InBox(s.nx, s.ny, e.cell)
    ensures Try(s, v, e) != None
  {
  }

  /** On loose edges the trace goes on along the boundary just when the side that follows is cached. */
  lemma CachedSideSteers(s: Slice, v: int, e: Side)
    requires s.Wf() && s.LooseEdges() && Boundary(s.Values(), v, e)
    ensures NextByEdges(s, v, e) == Some(Successor(s.Values(), v, e)) <==> Cached(s, v, Successor(s.Values(), v, e))
  {
    var values, left, straight := s.Values(), TurnLeft(e), StraightOn(e);
    NextIsCell(s, v, e);
    CellIsReadable(s, v, left);
    TurnsDiffer(e);
    hide Boundary, Slice.LooseEdges, Matches, TurnLeft, StraightOn, TurnRight, Readable, Try, InBox, Slice.Wf;
    hide Slice.Values;
    if !Boundary(values, v, left) {
      if Cached(s, v, left) { CachedIsBoundary(s, v, left); }
      CellIsReadable(s, v, straight);
      if !Boundary(values, v, straight) && Cached(s, v, straight) { CachedIsBoundary(s, v, straight); }
    }
  }

  lemma TurnsDiffer(e: Side)
    ensures TurnLeft(e) != StraightOn(e) && TurnLeft(e) != TurnRight(e) && StraightOn(e) != TurnRight(e)
  {
  }

  /** Exact edges know the boundary: an edge of a cell with the value matches just when it is a boundary. */
  lemma MatchIsBoundary(s: Slice, v: int, e: Side)
    requires s.Wf() && s.ExactEdges() && InBox(s.nx, s.ny, e.cell)
    requires v != 0 || s.grid[e.cell].value == v
    ensures Try(s, v, e) == Some(Boundary(s.Values(), v, e))
  {
    assert s.grid[e.cell].edges.Get(e.dir) == s.ExactEdge(e.cell, e.dir);
    assert s.NeighbourHas(e.cell, e.dir, s.grid[e.cell].value) <==>
           (Across(e.cell, e.dir) in s.Values() && s.Values()[Across(e.cell, e.dir)] == s.Values()[e.cell]);
  }

  /** With exact edges every boundary side is cached. */
  lemma ExactIsCached(s: Slice, v: int, e: Side)
    requires s.Wf() && s.ExactEdges() && Boundary(s.Values(), v, e)
    ensures Cached(s, v, e)
  {
    MatchIsBoundary(s, v, e);
  }

  lemma ExactIsLoose(s: Slice)
    requires s.Wf() && s.ExactEdges()
    ensures s.LooseEdges()
  {
    forall p, d: Dir | InBox(s.nx, s.ny, p) ensures s.LooseEdge(p, d) {
      assert s.grid[p].edges.Get(d) == s.ExactEdge(p, d);
    }
  }

  /** As long as the earlier sides do not match, the next one to be tried is a side of a cell of the block. */
  lemma NextIsCell(s: Slice, v: int, e: Side)
    requires s.Wf() && Boundary(s.Values(), v, e)
    ensures InBox(s.nx, s.ny, TurnLeft(e).cell) && s.grid[TurnLeft(e).cell].value == v
    ensures !Boundary(s.Values(), v, TurnLeft(e)) ==> v != 0 && InBox(s.nx, s.ny, StraightOn(e).cell)
    ensures !Boundary(s.Values(), v, TurnLeft(e)) && !Boundary(s.Values(), v, StraightOn(e)) ==>
              InBox(s.nx, s.ny, TurnRight(e).cell)
  {
  }

  ghost predicate Closes(trace: seq<Side>) {
    trace != [] && EndOf(trace[|trace|-1]) == StartOf(trace[0])
  }

  /** A trace as the edges steer it, which did not come to its first corner before its end. */
  ghost predicate Follows(s: Slice, v: int, trace: seq<Side>)
    requires s.Wf()
  {
    trace != [] && forall k :: 0 < k < |trace| ==> Continues(s, v, trace[0], trace[k-1], trace[k])
  }

  /** It ends at its first corner, or where there is no next side. */
  ghost predicate Ends(s: Slice, v: int, trace: seq<Side>)
    requires s.Wf()
  {
    Follows(s, v, trace) && (Closes(trace) || NextByEdges(s, v, trace[|trace|-1]) == None)
  }

  /** It goes on with a side that it has already passed. */
  ghost predicate Circles(s: Slice, v: int, trace: seq<Side>)
    requires s.Wf()
  {
    && Follows(s, v, trace) && !Closes(trace)
    && var next := NextByEdges(s, v, trace[|trace|-1]); next != None && next.value in trace
  }

  ghost predicate Continues(s: Slice, v: int, first: Side, e: Side, next: Side)
    requires s.Wf()
  {
    EndOf(e) != StartOf(first) && NextByEdges(s, v, e) == Some(next)
  }

  lemma {:induction false} TracesAgree(s: Slice, v: int, t: seq<Side>, u: seq<Side>, k: nat)
    requires s.Wf() && Ends(s, v, t) && Ends(s, v, u) && t[0] == u[0] && k < |t| && k < |u|
    ensures t[k] == u[k]
  {
    hide NextByEdges, StartOf, EndOf;
    if k > 0 {
      TracesAgree(s, v, t, u, k - 1);
      assert Continues(s, v, t[0], t[k-1], t[k]) && Continues(s, v, u[0], u[k-1], u[k]);
    }
  }

  lemma TraceNotShorter(s: Slice, v: int, t: seq<Side>, u: seq<Side>)
    requires s.Wf() && Ends(s, v, t) && Ends(s, v, u) && t[0] == u[0]
    ensures |u| <= |t|
  {
    hide NextByEdges, StartOf, EndOf;
    var n := |t|;
    if n < |u| {
      assert Continues(s, v, u[0], u[n-1], u[n]);
      TracesAgree(s, v, t, u, n - 1);
    }
  }

  /** There is just one trace from a side, if it ends. */
  lemma TraceIsUnique(s: Slice, v: int, t: seq<Side>, u: seq<Side>)
    requires s.Wf() && Ends(s, v, t) && Ends(s, v, u) && t[0] == u[0]
    ensures t == u
  {
    TraceNotShorter(s, v, t, u);
    TraceNotShorter(s, v, u, t);
    forall k | 0 <= k < |t| ensures t[k] == u[k] {
      TracesAgree(s, v, t, u, k);
    }
  }

  /** On loose edges every trace keeps to the boundary, one side beginning where the other ends. */
  lemma NextIsBoundary(s: Slice, v: int, e: Side)
    requires s.Wf() && s.LooseEdges() && Boundary(s.Values(), v, e) && NextByEdges(s, v, e) != None
    ensures
      var next := NextByEdges(s, v, e).value;
      Boundary(s.Values(), v, next) && StartOf(next) == EndOf(e)
  {
    var next := NextByEdges(s, v, e).value;
    NextStarts(e);
    if v == 0 {
      CellIsReadable(s, v, TurnLeft(e));
      ZeroIsCached(s, TurnLeft(e));
      hide Slice.LooseEdges, Try;
      assert Boundary(s.Values(), v, TurnLeft(e));
    } else {
      hide Boundary, TurnLeft, StraightOn, TurnRight, StartOf, EndOf;
      assert Cached(s, v, next);
      CachedIsInside(s, v, next);
      CachedIsBoundary(s, v, next);
    }
  }

  lemma NextStarts(e: Side)
    ensures StartOf(TurnLeft(e)) == EndOf(e) && StartOf(StraightOn(e)) == EndOf(e) && StartOf(TurnRight(e)) == EndOf(e)
  {
  }

  lemma ZeroIsCached(s: Slice, e: Side)
    requires s.Wf() && s.LooseEdges() && InBox(s.nx, s.ny, e.cell) && s.grid[e.cell].value == 0
    ensures Cached(s, 0, e)
  {
    assert s.LooseEdge(e.cell, e.dir);
  }

  lemma CachedIsInside(s: Slice, v: int, e: Side)
    requires s.Wf() && s.LooseEdges() && v != 0 && Cached(s, v, e)
    ensures InBox(s.nx, s.ny, e.cell)
  {
    assert s.PlainPadding() && e.cell in s.grid;
  }

  /** Whatever the edges are, a trace is a chain of boundary sides. */
  lemma {:induction false} TraceIsChain(s: Slice, v: int, trace: seq<Side>, k: nat)
    requires s.Wf() && s.LooseEdges() && Follows(s, v, trace) && Boundary(s.Values(), v, trace[0]) && k < |trace|
    ensures Boundary(s.Values(), v, trace[k]) && (k > 0 ==> StartOf(trace[k]) == EndOf(trace[k-1]))
  {
    hide Boundary, NextByEdges, StartOf, EndOf, Slice.LooseEdges;
    if k > 0 {
      TraceIsChain(s, v, trace, k - 1);
      assert Continues(s, v, trace[0], trace[k-1], trace[k]);
      NextIsBoundary(s, v, trace[k-1]);
    }
  }

  lemma CircleGoesOn(s: Slice, v: int, circle: seq<Side>, e: Side)
    requires s.Wf() && Circles(s, v, circle) && e in circle
    ensures EndOf(e) != StartOf(circle[0])
    ensures NextByEdges(s, v, e) != None && NextByEdges(s, v, e).value in circle
  {
    hide NextByEdges, StartOf, EndOf;
    var j :| 0 <= j < |circle| && circle[j] == e;
    if j + 1 < |circle| { assert Continues(s, v, circle[0], circle[j], circle[j+1]); }
  }

  lemma {:induction false} StaysOnCircle(s: Slice, v: int, circle: seq<Side>, trace: seq<Side>, k: nat)
    requires s.Wf() && Circles(s, v, circle) && Follows(s, v, trace) && trace[0] == circle[0] && k < |trace|
    ensures trace[k] in circle
  {
    assert circle[0] in circle;
    hide NextByEdges, StartOf, EndOf, Circles;
    if k > 0 {
      StaysOnCircle(s, v, circle, trace, k - 1);
      assert Continues(s, v, trace[0], trace[k-1], trace[k]);
      CircleGoesOn(s, v, circle, trace[k-1]);
    }
  }

  /** A trace that comes to a side again goes round for ever. */
  lemma CircleNeverEnds(s: Slice, v: int, circle: seq<Side>, trace: seq<Side>)
    requires s.Wf() && Circles(s, v, circle) && trace != [] && trace[0] == circle[0]
    ensures !Ends(s, v, trace)
  {
    hide NextByEdges, StartOf, EndOf, Follows;
    if Ends(s, v, trace) {
      StaysOnCircle(s, v, circle, trace, |trace| - 1);
      CircleGoesOn(s, v, circle, trace[|trace|-1]);
    }
  }

  /** A trace can be followed until it ends or comes to a side again. */
  lemma FollowTrace(s: Slice, v: int, trace: seq<Side>) returns (all: seq<Side>)
    requires s.Wf() && s.LooseEdges() && Follows(s, v, trace) && Distinct(trace)
    requires Boundary(s.Values(), v, trace[|trace|-1])
    ensures (Ends(s, v, all) || Circles(s, v, all)) && all[0] == trace[0]
    decreases SidesLeft(s.Values(), v, trace)
  {
    hide Boundary, NextByEdges, StartOf, EndOf, Slice.LooseEdges, SidesLeft, Slice.Values;
    var last := trace[|trace|-1];
    var next := NextByEdges(s, v, last);
    all := trace;
    if !Closes(trace) && next != None && next.value !in trace {
      NextIsBoundary(s, v, last);
      FewerSidesLeft(s.Values(), v, trace, next.value);
      all := FollowTrace(s, v, trace + [next.value]);
    }
  }

  /** On every layer the trace from a boundary side ends just when it comes to no side again before its first corner. */
  lemma TraceEndsUnlessItCircles(s: Slice, v: int, e: Side)
    requires s.Wf() && s.LooseEdges() && Boundary(s.Values(), v, e)
    ensures (exists trace :: Ends(s, v, trace) && trace[0] == e) <==>
            !(exists trace :: Circles(s, v, trace) && trace[0] == e)
  {
    hide Boundary, NextByEdges, StartOf, EndOf, Slice.LooseEdges, Continues, Slice.Values;
    var all := FollowTrace(s, v, [e]);
    forall circle, trace | Circles(s, v, circle) && circle[0] == e && Ends(s, v, trace) && trace[0] == e ensures false {
      CircleNeverEnds(s, v, circle, trace);
    }
  }

  /** A closed walk along the boundary is what the edges trace just when all its sides are cached. */
  lemma ClosedWalkIsTraced(s: Slice, v: int, walk: seq<Side>)
    requires s.Wf() && s.LooseEdges() && ClosedWalk(s.Values(), v, walk) && Cached(s, v, walk[0])
    ensures Ends(s, v, walk) <==> AllCached(s, v, walk)
  {
    hide NextByEdges, StartOf, EndOf, Slice.LooseEdges, Boundary, Successor, Cached, Distinct, Slice.Values;
    if Ends(s, v, walk) {
      forall k | 0 <= k < |walk| ensures Cached(s, v, walk[k]) {
        if k > 0 {
          CachedSideSteers(s, v, walk[k-1]);
          assert Continues(s, v, walk[0], walk[k-1], walk[k]);
        }
      }
    }
    if AllCached(s, v, walk) {
      forall k | 0 < k < |walk| ensures Continues(s, v, walk[0], walk[k-1], walk[k]) {
        CachedSideSteers(s, v, walk[k-1]);
      }
    }
  }

  /**
   * On every layer, from a cached side of a cell with the value: the trace is the true walk along the boundary just
   * when all sides of that walk are cached.
   */
  lemma TraceIsTrueWalk(s: Slice, v: int, e: Side, trace: seq<Side>)
    requires s.Wf() && s.LooseEdges() && Boundary(s.Values(), v, e) && Cached(s, v, e)
    requires Ends(s, v, trace) && trace[0] == e
    ensures trace == TrueWalk(s.Values(), v, e) <==> AllCached(s, v, TrueWalk(s.Values(), v, e))
  {
    hide Ends, AllCached, Boundary, ClosedWalk, Slice.LooseEdges, Cached, Slice.Values;
    var walk := TrueWalk(s.Values(), v, e);
    ClosedWalkIsTraced(s, v, walk);
    if AllCached(s, v, walk) { TraceIsUnique(s, v, trace, walk); }
  }

  /** Reads a cached edge value; reading one that does not exist is an error. */
  method ReadEdge(layer: Layer, e: Side) returns (r: Option<int>)
    requires layer.Valid()
    ensures r == if Readable(layer.nx, layer.ny, e) then Some(layer.slice.grid[e.cell].edges.Get(e.dir)) else None
  {
    var i, j := e.cell.i, e.cell.j;
    if i < 0 || j < 0 { return None; }
    if i > layer.nx || j > layer.ny { return None; }
    if i == layer.nx {
      if j == layer.ny { return None; }
      if e.dir != LeftEdge { return None; }
    }
    if j == layer.ny {
      if e.dir != BottomEdge { return None; }
    }
    assert e.cell in layer.slice.grid;
    return Some(layer.cells[i, j].edges.Get(e.dir));
  }

  /** Tries the sides that may follow, in order. */
  method StepAlong(layer: Layer, v: int, e: Side) returns (next: Option<Side>)
    requires layer.Valid()
    ensures next == NextByEdges(layer.slice, v, e)
  {
    hide Layer.Valid, Readable, TurnLeft, StraightOn, TurnRight;
    var left := ReadEdge(layer, TurnLeft(e));
    if left == None { return None; }
    if left.value == Signed(TurnLeft(e).dir, v) { return Some(TurnLeft(e)); }
    var straight := ReadEdge(layer, StraightOn(e));
    if straight == None { return None; }
    if straight.value == Signed(StraightOn(e).dir, v) { return Some(StraightOn(e)); }
    var right := ReadEdge(layer, TurnRight(e));
    if right == None { return None; }
    if right.value == Signed(TurnRight(e).dir, v) { return Some(TurnRight(e)); }
    return None;
  }

  ghost function Corners(walk: seq<Side>): seq<Pos> {
    seq(|walk|, k requires 0 <= k < |walk| => StartOf(walk[k]))
  }

  ghost function CellNumbers(nx: nat, walk: seq<Side>): seq<int> {
    seq(|walk|, k requires 0 <= k < |walk| => walk[k].cell.i + walk[k].cell.j * nx)
  }

  lemma OneMoreCorner(nx: nat, trace: seq<Side>, n: nat)
    requires n < |trace|
    ensures Corners(trace[..n+1]) == Corners(trace[..n]) + [StartOf(trace[n])]
    ensures CellNumbers(nx, trace[..n+1]) == CellNumbers(nx, trace[..n]) + [trace[n].cell.i + trace[n].cell.j * nx]
  {
  }

  /**
   * Goes on from the side `e`, adding the corner where each side begins and the number of its cell, until the corner
   * `start` is reached or no next side is found. Given that the trace from the first side ends, this lists it.
   */
  method TraceFrom(layer: Layer, start: Pos, e: Side, v: int, corners: seq<Pos>, cells: seq<int>,
      ghost trace: seq<Side>, ghost n: nat)
    returns (ok: bool, corners': seq<Pos>, cells': seq<int>)
    requires layer.Valid() && Ends(layer.slice, v, trace) && n < |trace|
    requires e == trace[n] && start == StartOf(trace[0])
    requires corners == Corners(trace[..n]) && cells == CellNumbers(layer.nx, trace[..n])
    ensures ok == Closes(trace) && corners' == Corners(trace) && cells' == CellNumbers(layer.nx, trace)
    decreases |trace| - n
  {
    hide Layer.Valid, NextByEdges, StartOf, EndOf, Corners, CellNumbers;
    corners', cells' := corners + [StartOf(e)], cells + [e.cell.i + e.cell.j * layer.nx];
    OneMoreCorner(layer.nx, trace, n);
    if n + 1 < |trace| { assert Continues(layer.slice, v, trace[0], trace[n], trace[n+1]); }
    assert trace[..|trace|] == trace;
    if start == EndOf(e) { return true, corners', cells'; }
    var next := StepAlong(layer, v, e);
    if next == None { return false, corners', cells'; }
    ok, corners', cells' := TraceFrom(layer, start, next.value, v, corners', cells', trace, n + 1);
  }

  /** A cell whose value shows on one of its cached edges. */
  ghost predicate Shows(s: Slice, p: Pos)
    requires s.Wf() && InBox(s.nx, s.ny, p)
  {
    exists d: Dir :: s.grid[p].edges.Get(d) == s.grid[p].value
  }

  method CellOnEdge(layer: Layer, i: int, j: int) returns (onEdge: bool)
    requires layer.Valid() && 0 <= i < layer.nx && 0 <= j < layer.ny
    ensures onEdge == Shows(layer.slice, Pos(i, j))
  {
    assert Pos(i, j) in layer.slice.grid;
    var c := layer.cells[i, j];
    onEdge := c.edges.right == c.value || c.edges.left == c.value || c.edges.top == c.value ||
      c.edges.bottom == c.value;
    assert c.edges.Get(RightEdge) == c.edges.right && c.edges.Get(LeftEdge) == c.edges.left;
    assert c.edges.Get(TopEdge) == c.edges.top && c.edges.Get(BottomEdge) == c.edges.bottom;
  }

  /** On loose edges only a right or bottom edge can show the value of its cell, or every edge of a zero cell does. */
  lemma ShowsOnLooseEdges(s: Slice, p: Pos)
    requires s.Wf() && s.LooseEdges() && InBox(s.nx, s.ny, p)
    ensures
      var v := s.grid[p].value;
      Shows(s, p) <==> Cached(s, v, Side(p, BottomEdge)) || Cached(s, v, Side(p, RightEdge))
  {
    assert s.LooseEdge(p, LeftEdge) && s.LooseEdge(p, TopEdge) && s.LooseEdge(p, BottomEdge);
    assert s.grid[p].edges.Get(RightEdge) == s.grid[p].value ==> Shows(s, p);
    assert s.grid[p].edges.Get(BottomEdge) == s.grid[p].value ==> Shows(s, p);
  }

  /** Goes right from a cell to the first cell that shows its value; it fails where the row ends. */
  method FindEdge(layer: Layer, i: int, j: int) returns (ok: bool, i': int)
    requires layer.Valid() && 0 <= i < layer.nx && 0 <= j < layer.ny
    ensures i <= i' <= layer.nx && ok == (i' < layer.nx)
    ensures forall k :: i <= k < i' ==> !Shows(layer.slice, Pos(k, j))
    ensures ok ==> Shows(layer.slice, Pos(i', j))
  {
    hide Layer.Valid, Shows;
    i' := i;
    while i' < layer.nx
      invariant i <= i' <= layer.nx
      invariant forall k :: i <= k < i' ==> !Shows(layer.slice, Pos(k, j))
    {
      var onEdge := CellOnEdge(layer, i', j);
      if onEdge { return true, i'; }
      i' := i' + 1;
    }
    return false, i';
  }

  /** The first side of a cell that shows the value: bottom, right, top or left. */
  ghost function FirstSide(s: Slice, p: Pos, v: int): Option<Side>
    requires s.Wf() && InBox(s.nx, s.ny, p)
  {
    if Cached(s, v, Side(p, BottomEdge)) then Some(Side(p, BottomEdge))
    else if Cached(s, v, Side(p, RightEdge)) then Some(Side(p, RightEdge))
    else if Cached(s, v, Side(p, TopEdge)) then Some(Side(p, TopEdge))
    else if Cached(s, v, Side(p, LeftEdge)) then Some(Side(p, LeftEdge))
    else None
  }

  /** The side where the trace for a cell starts: the first side of the first cell from there that shows its value. */
  ghost function StartSide(s: Slice, p: Pos, v: int): Option<Side>
    requires s.Wf()
    decreases s.nx - p.i
  {
    if !InBox(s.nx, s.ny, p) then None
    else if Shows(s, p) then FirstSide(s, p, v)
    else StartSide(s, Right(p), v)
  }

  lemma {:induction false} StartSideFound(s: Slice, p: Pos, v: int, i: int)
    requires s.Wf() && InBox(s.nx, s.ny, p) && p.i <= i <= s.nx
    requires forall k :: p.i <= k < i ==> !Shows(s, Pos(k, p.j))
    requires i < s.nx ==> Shows(s, Pos(i, p.j))
    ensures StartSide(s, p, v) == if i < s.nx then FirstSide(s, Pos(i, p.j), v) else None
    decreases s.nx - p.i
  {
    hide Shows, FirstSide;
    if p.i < i {
      assert !Shows(s, Pos(p.i, p.j));
      if p.i + 1 < s.nx { StartSideFound(s, Right(p), v, i); }
    }
  }

  lemma FirstSideIsBoundary(s: Slice, p: Pos, v: int)
    requires s.Wf() && s.LooseEdges() && InBox(s.nx, s.ny, p) && (v != 0 || s.grid[p].value == v)
    ensures v == 0 ==> Shows(s, p)
    ensures Shows(s, p) && FirstSide(s, p, v) != None ==>
      var e := FirstSide(s, p, v).value;
      Boundary(s.Values(), v, e) && Cached(s, v, e) && e.cell == p && e.dir in {RightEdge, BottomEdge}
  {
    hide Boundary;
    ShowsOnLooseEdges(s, p);
    assert s.LooseEdge(p, LeftEdge) && s.LooseEdge(p, TopEdge) && s.LooseEdge(p, BottomEdge) &&
      s.LooseEdge(p, RightEdge);
    if FirstSide(s, p, v) != None { CachedIsBoundary(s, v, FirstSide(s, p, v).value); }
  }

  /** On loose edges, a trace starts with a cached right or bottom side of a cell with the value, in the same row. */
  lemma {:induction false} StartSideIsBoundary(s: Slice, p: Pos, v: int)
    requires s.Wf() && s.LooseEdges() && (v != 0 || (InBox(s.nx, s.ny, p) && s.grid[p].value == v))
    requires StartSide(s, p, v) != None
    ensures
      var e := StartSide(s, p, v).value;
      && Boundary(s.Values(), v, e) && Cached(s, v, e)
      && e.cell.j == p.j && e.dir in {RightEdge, BottomEdge}
    decreases s.nx - p.i
  {
    hide Boundary, Shows, Slice.LooseEdges, FirstSide;
    ShowsOnLooseEdges(s, p);
    FirstSideIsBoundary(s, p, v);
    if !Shows(s, p) { StartSideIsBoundary(s, Right(p), v); }
  }

  /** The trace for a cell is known to end. */
  ghost predicate TraceEnds(s: Slice, p: Pos, v: int)
    requires s.Wf()
  {
    StartSide(s, p, v) != None ==> exists trace :: Ends(s, v, trace) && trace[0] == StartSide(s, p, v).value
  }

  /** What the trace for a cell gives. */
  ghost predicate TraceResult(s: Slice, p: Pos, v: int, ok: bool, corners: seq<Pos>, cells: seq<int>, trace: seq<Side>)
    requires s.Wf()
  {
    match StartSide(s, p, v)
    case None => !ok
    case Some(e) =>
      && Ends(s, v, trace) && trace[0] == e && ok == Closes(trace)
      && corners == Corners(trace) && cells == CellNumbers(s.nx, trace)
  }

  /** Starts the trace at the first side of the cell that shows the value. */
  method TraceFirst(layer: Layer, i: int, j: int, v: int)
    returns (ok: bool, corners: seq<Pos>, cells: seq<int>, ghost trace: seq<Side>)
    requires layer.Valid() && 0 <= i < layer.nx && 0 <= j < layer.ny
    requires Shows(layer.slice, Pos(i, j)) && TraceEnds(layer.slice, Pos(i, j), v)
    ensures TraceResult(layer.slice, Pos(i, j), v, ok, corners, cells, trace)
  {
    hide Layer.Valid, Shows, StartOf, Corners, CellNumbers, NextByEdges, Closes, Readable;
    corners, cells, trace := [], [], [];
    var e := Side(Pos(i, j), BottomEdge);
    var bottom := ReadEdge(layer, e);
    if bottom != Some(v) {
      e := Side(Pos(i, j), RightEdge);
      var right := ReadEdge(layer, e);
      if right != Some(v) {
        e := Side(Pos(i, j), TopEdge);
        var top := ReadEdge(layer, e);
        if top != Some(-v) {
          e := Side(Pos(i, j), LeftEdge);
          var left := ReadEdge(layer, e);
          if left != Some(-v) { return false, corners, cells, trace; }
        }
      }
    }
    trace :| Ends(layer.slice, v, trace) && trace[0] == e;
    EmptyTrace(layer.nx, trace);
    ok, corners, cells := TraceFrom(layer, StartOf(e), e, v, [], [], trace, 0);
  }

  lemma EmptyTrace(nx: nat, trace: seq<Side>)
    ensures Corners(trace[..0]) == [] && CellNumbers(nx, trace[..0]) == []
  {
  }

  /** Traces the boundary of the block of the cell (i, j), if the cell has the given value. */
  method TraceBlockEdge(layer: Layer, i: int, j: int, v: int)
    returns (found: bool, ok: bool, corners: seq<Pos>, cells: seq<int>, ghost trace: seq<Side>)
    requires layer.Valid() && 0 <= i < layer.nx && 0 <= j < layer.ny
    requires layer.slice.Values()[Pos(i, j)] == v ==> TraceEnds(layer.slice, Pos(i, j), v)
    ensures found == (layer.slice.Values()[Pos(i, j)] == v)
    ensures found ==> TraceResult(layer.slice, Pos(i, j), v, ok, corners, cells, trace)
    ensures !found ==> ok && corners == [] && cells == []
  {
    hide Layer.Valid, Shows, TraceEnds, Slice.Values, FirstSide, Ends, Corners, CellNumbers;
    corners, cells, trace, ok := [], [], [], true;
    layer.IsCell(i, j);
    var value := layer.CellValue(i, j);
    found := value == v;
    if found {
      var i';
      ok, i' := FindEdge(layer, i, j);
      StartSideFound(layer.slice, Pos(i, j), v, i');
      SameStart(layer.slice, Pos(i, j), Pos(i', j), v);
      if ok { ok, corners, cells, trace := TraceFirst(layer, i', j, v); }
    }
  }

  /** Two cells for which the trace starts at the same side. */
  lemma SameStart(s: Slice, p: Pos, q: Pos, v: int)
    requires s.Wf() && StartSide(s, p, v) == if InBox(s.nx, s.ny, q) then FirstSide(s, q, v) else None
    requires InBox(s.nx, s.ny, q) ==> Shows(s, q)
    ensures StartSide(s, q, v) == StartSide(s, p, v)
    ensures TraceEnds(s, p, v) == TraceEnds(s, q, v)
    ensures forall ok, corners, cells, trace ::
      TraceResult(s, p, v, ok, corners, cells, trace) == TraceResult(s, q, v, ok, corners, cells, trace)
  {
  }

  /** What a traced boundary is: a closed walk along the boundary, listed by corners and cells. */
  ghost predicate Traced(nx: nat, values: map<Pos, int>, v: int, walk: seq<Side>, corners: seq<Pos>, cells: seq<int>) {
    && ClosedWalk(values, v, walk)
    && corners == Corners(walk) && cells == CellNumbers(nx, walk)
  }

  /** A trace for the cell has a start, and the true walk from there has all its sides cached. */
  ghost predicate CachedAround(s: Slice, p: Pos, v: int)
    requires s.Wf() && s.LooseEdges() && InBox(s.nx, s.ny, p) && s.grid[p].value == v
  {
    StartSide(s, p, v) != None
    && (StartSideIsBoundary(s, p, v); AllCached(s, v, TrueWalk(s.Values(), v, StartSide(s, p, v).value)))
  }

  /** When the sides of the true walk are cached, the trace ends, without an error, and it is the true walk. */
  lemma CachedAroundTraces(s: Slice, p: Pos, v: int)
    requires s.Wf() && s.LooseEdges() && InBox(s.nx, s.ny, p) && s.grid[p].value == v && CachedAround(s, p, v)
    ensures TraceEnds(s, p, v)
    ensures forall ok, corners, cells, trace | TraceResult(s, p, v, ok, corners, cells, trace) ::
              ok && Traced(s.nx, s.Values(), v, trace, corners, cells)
  {
    hide Boundary, Slice.LooseEdges, Cached, Slice.Values, StartSide, AllCached, Ends, ClosedWalk;
    StartSideIsBoundary(s, p, v);
    var e := StartSide(s, p, v).value;
    var walk := TrueWalk(s.Values(), v, e);
    ClosedWalkIsTraced(s, v, walk);
    ClosedWalkCloses(s.Values(), v, walk);
    forall ok, corners, cells, trace | TraceResult(s, p, v, ok, corners, cells, trace)
      ensures ok && Traced(s.nx, s.Values(), v, trace, corners, cells)
    {
      TraceIsTrueWalk(s, v, e, trace);
    }
  }

  lemma ClosedWalkCloses(values: map<Pos, int>, v: int, walk: seq<Side>)
    requires ClosedWalk(values, v, walk)
    ensures Closes(walk)
  {
  }

  /** With exact edges the trace starts in the block of the cell, at its lower side if that is on the boundary. */
  lemma {:induction false} ExactStart(s: Slice, p: Pos, v: int)
    requires s.Wf() && s.ExactEdges() && InBox(s.nx, s.ny, p) && s.grid[p].value == v
    ensures StartSide(s, p, v) != None
    ensures Connected(NO_WALLS, Region(s.Values(), v), p, StartSide(s, p, v).value.cell)
    ensures Boundary(s.Values(), v, Side(p, BottomEdge)) ==> StartSide(s, p, v) == Some(Side(p, BottomEdge))
    decreases s.nx - p.i
  {
    hide Boundary, Connected, Slice.ExactEdges, Slice.LooseEdges;
    var region := Region(s.Values(), v);
    ExactIsLoose(s);
    ShowsOnLooseEdges(s, p);
    MatchIsBoundary(s, v, Side(p, BottomEdge));
    MatchIsBoundary(s, v, Side(p, RightEdge));
    ConnectedRefl(NO_WALLS, region, p);
    if !Shows(s, p) {
      RightIsSame(s, p);
      ConnectedStep(NO_WALLS, region, p, p, Right(p));
      ExactStart(s, Right(p), v);
      ConnectedTrans(NO_WALLS, region, p, Right(p), StartSide(s, p, v).value.cell);
    }
  }

  /** The cell to the right of a cell without a boundary there belongs to the same block. */
  lemma RightIsSame(s: Slice, p: Pos)
    requires s.Wf() && InBox(s.nx, s.ny, p) && !Boundary(s.Values(), s.grid[p].value, Side(p, RightEdge))
    ensures InBox(s.nx, s.ny, Right(p)) && s.grid[Right(p)].value == s.grid[p].value
  {
  }

  /** With exact edges all is cached, so every trace gives the true walk. */
  lemma ExactIsCachedAround(s: Slice, p: Pos, v: int)
    requires s.Wf() && s.ExactEdges() && InBox(s.nx, s.ny, p) && s.grid[p].value == v
    ensures s.LooseEdges() && CachedAround(s, p, v)
  {
    hide Boundary, Slice.ExactEdges, Slice.LooseEdges, Cached, Connected, Slice.Values, StartSide;
    ExactIsLoose(s);
    ExactStart(s, p, v);
    StartSideIsBoundary(s, p, v);
    var walk := TrueWalk(s.Values(), v, StartSide(s, p, v).value);
    forall k | 0 <= k < |walk| ensures Cached(s, v, walk[k]) {
      ExactIsCached(s, v, walk[k]);
    }
  }

  /**
   * The corners of a traced boundary form a closed chain of unit steps that passes its first corner just once, the
   * cells beside it all belong to one block, and no side is walked twice.
   */
  lemma TraceIsClosedChain(nx: nat, values: map<Pos, int>, v: int, walk: seq<Side>, corners: seq<Pos>, cells: seq<int>)
    requires Traced(nx, values, v, walk, corners, cells)
    ensures |corners| == |cells| == |walk|
    ensures forall k :: 0 < k < |corners| ==> OneApart(corners[k-1], corners[k]) && corners[k] != corners[0]
    ensures OneApart(corners[|corners|-1], corners[0])
    ensures forall k :: 0 <= k < |walk| ==> walk[k].cell in Component(NO_WALLS, Region(values, v), walk[0].cell)
  {
    hide Boundary, Successor, StartOf, EndOf, Adjacent, OneApart;
    forall k | 0 < k < |walk| ensures OneApart(corners[k-1], corners[k]) && corners[k] != corners[0] {
      SuccessorIsBoundary(values, v, walk[k-1]);
      SideIsUnit(walk[k-1]);
    }
    SideIsUnit(walk[|walk|-1]);
    forall k | 0 <= k < |walk| ensures walk[k].cell in Component(NO_WALLS, Region(values, v), walk[0].cell) {
      WalkInBlock(values, v, walk, k);
    }
  }

  /**
   * With stale edges the trace may fail: after two neighbouring cells were given the same value and then one of
   * them another, the edge between them is missing, and the trace round the first cell runs out of the layer.
   */
  lemma StaleEdgeBreaksWalk(s1: Slice, s2: Slice, s3: Slice)
    requires BlankSlice(2, 1).CellSet(s1, Pos(0, 0), 1)
    requires s1.CellSet(s2, Pos(1, 0), 1)
    requires s2.CellSet(s3, Pos(1, 0), 2)
    ensures Boundary(s3.Values(), 1, Side(Pos(0, 0), BottomEdge))
    ensures NextByEdges(s3, 1, Side(Pos(0, 0), BottomEdge)) == None
  {
    var e := Side(Pos(0, 0), RightEdge);
    assert BlankSlice(2, 1).EdgeAfter(Pos(0, 0), 1, ALL_SIDES, Pos(0, 0), RightEdge) == 1;
    assert s2.grid[Pos(0, 0)].edges.Get(RightEdge) == s1.EdgeAfter(Pos(1, 0), 1, ALL_SIDES, Pos(0, 0), RightEdge) == 0;
    assert s3.grid[Pos(0, 0)].edges.Get(RightEdge) == s2.EdgeAfter(Pos(1, 0), 2, ALL_SIDES, Pos(0, 0), RightEdge) == 0;
    assert s3.grid[Pos(1, 0)].edges.Get(BottomEdge) ==
      s2.EdgeAfter(Pos(1, 0), 2, ALL_SIDES, Pos(1, 0), BottomEdge) == 2;
  }

  /**
   * With stale edges the trace may also go round for ever: here it leaves the cell (0, 0) at the corner where it
   * misses an edge, for the cell (1, 1), and never comes back.
   */
  lemma StaleEdgeTrapsWalk(s1: Slice, s2: Slice, s3: Slice, s4: Slice, trace: seq<Side>)
    requires BlankSlice(2, 2).CellSet(s1, Pos(0, 1), 1)
    requires s1.CellSet(s2, Pos(0, 0), 1)
    requires s2.CellSet(s3, Pos(0, 1), 2)
    requires s3.CellSet(s4, Pos(1, 1), 1)
    requires trace != [] && trace[0] == Side(Pos(0, 0), BottomEdge)
    ensures StartSide(s4, Pos(0, 0), 1) == Some(trace[0]) && !Ends(s4, 1, trace)
  {
    hide Slice.CellSet, NextByEdges, Ends, Circles;
    TrapEdges(s1, s2, s3, s4);
    TrapStarts(s4);
    TrapCircles(s4);
    CircleNeverEnds(s4, 1, TRAP, trace);
  }

  /** What a write makes of one edge. */
  lemma EdgeAfterSet(s: Slice, t: Slice, p: Pos, v: int, q: Pos, d: Dir)
    requires s.Wf() && InBox(s.nx, s.ny, p) && s.CellSet(t, p, v) && InBox(s.nx, s.ny, q)
    ensures t.grid[q].edges.Get(d) ==
            if q == p then (if s.NeighbourHas(p, d, v) then 0 else Signed(d, v))
            else if Across(q, d) == p && s.grid[q].value == v then 0
            else s.grid[q].edges.Get(d)
  {
  }

  lemma ValuesAfterSet(s: Slice, t: Slice, p: Pos, v: int)
    requires s.Wf() && InBox(s.nx, s.ny, p) && s.CellSet(t, p, v)
    ensures t.Wf() && t.nx == s.nx && t.ny == s.ny
    ensures forall q :: q in s.grid ==> t.grid[q].value == if q == p then v else s.grid[q].value
  {
  }

  /** The edges that matter after the four writes. */
  ghost predicate Trap(s: Slice) {
    && s.Wf() && s.nx == 2 && s.ny == 2
    && var a, b := s.grid[Pos(0, 0)], s.grid[Pos(1, 1)];
      && a.value == 1 && a.edges.bottom == 1 && a.edges.right == 1 && a.edges.top == 0
      && s.grid[Pos(0, 1)].edges.right == 2
      && b.edges == Edges(1, -1, -1, 1)
  }

  /** The edges of the cell (0, 0) are those of its own write, when both of the later ones are of cells that differ. */
  lemma EarlierEdge(s1: Slice, s2: Slice, s3: Slice, s4: Slice, d: Dir)
    requires s1.Wf() && s1.nx == 2 && s1.ny == 2 && s1.CellSet(s2, Pos(0, 0), 1)
    requires s2.CellSet(s3, Pos(0, 1), 2)
    requires s3.CellSet(s4, Pos(1, 1), 1)
    ensures s4.grid[Pos(0, 0)].edges.Get(d) == if s1.NeighbourHas(Pos(0, 0), d, 1) then 0 else Signed(d, 1)
  {
    ValuesAfterSet(s1, s2, Pos(0, 0), 1);
    ValuesAfterSet(s2, s3, Pos(0, 1), 2);
    hide Slice.CellSet;
    EdgeAfterSet(s1, s2, Pos(0, 0), 1, Pos(0, 0), d);
    EdgeAfterSet(s2, s3, Pos(0, 1), 2, Pos(0, 0), d);
    EdgeAfterSet(s3, s4, Pos(1, 1), 1, Pos(0, 0), d);
  }

  /** The last cell differs from both of its neighbours, so it has all its edges. */
  lemma LastEdges(s3: Slice, s4: Slice)
    requires s3.Wf() && s3.nx == 2 && s3.ny == 2 && s3.CellSet(s4, Pos(1, 1), 1)
    requires s3.grid[Pos(0, 1)].value == 2 && s3.grid[Pos(1, 0)].value == 0
    ensures s4.grid[Pos(1, 1)].edges == Edges(1, -1, -1, 1)
  {
    hide Slice.CellSet;
    EdgeAfterSet(s3, s4, Pos(1, 1), 1, Pos(1, 1), RightEdge);
    EdgeAfterSet(s3, s4, Pos(1, 1), 1, Pos(1, 1), LeftEdge);
    EdgeAfterSet(s3, s4, Pos(1, 1), 1, Pos(1, 1), TopEdge);
    EdgeAfterSet(s3, s4, Pos(1, 1), 1, Pos(1, 1), BottomEdge);
  }

  lemma TrapEdges(s1: Slice, s2: Slice, s3: Slice, s4: Slice)
    requires BlankSlice(2, 2).CellSet(s1, Pos(0, 1), 1)
    requires s1.CellSet(s2, Pos(0, 0), 1)
    requires s2.CellSet(s3, Pos(0, 1), 2)
    requires s3.CellSet(s4, Pos(1, 1), 1)
    ensures Trap(s4)
  {
    var blank := BlankSlice(2, 2);
    ValuesAfterSet(blank, s1, Pos(0, 1), 1);
    ValuesAfterSet(s1, s2, Pos(0, 0), 1);
    ValuesAfterSet(s2, s3, Pos(0, 1), 2);
    ValuesAfterSet(s3, s4, Pos(1, 1), 1);
    hide Slice.CellSet;
    EarlierEdge(s1, s2, s3, s4, BottomEdge);
    EarlierEdge(s1, s2, s3, s4, RightEdge);
    EarlierEdge(s1, s2, s3, s4, TopEdge);
    LastEdges(s3, s4);
    EdgeAfterSet(s2, s3, Pos(0, 1), 2, Pos(0, 1), RightEdge);
    EdgeAfterSet(s3, s4, Pos(1, 1), 1, Pos(0, 1), RightEdge);
  }

  /** From the first cell to the second and once round it. */
  const TRAP: seq<Side> := [
    Side(Pos(0, 0), BottomEdge), Side(Pos(0, 0), RightEdge), Side(Pos(1, 1), BottomEdge), Side(Pos(1, 1), RightEdge),
    Side(Pos(1, 1), TopEdge), Side(Pos(1, 1), LeftEdge)]

  lemma TrapStarts(s: Slice)
    requires Trap(s)
    ensures StartSide(s, Pos(0, 0), 1) == Some(TRAP[0])
  {
    assert s.grid[Pos(0, 0)].edges.Get(RightEdge) == 1;
    assert Shows(s, Pos(0, 0));
  }

  lemma TrapStep(s: Slice, k: nat)
    requires Trap(s) && k < 6
    ensures NextByEdges(s, 1, TRAP[k]) == Some(if k < 5 then TRAP[k + 1] else TRAP[2]) && EndOf(TRAP[k]) != Pos(0, 0)
  {
  }

  lemma TrapCircles(s: Slice)
    requires Trap(s)
    ensures Circles(s, 1, TRAP)
  {
    hide NextByEdges;
    forall k | 0 < k < |TRAP| ensures Continues(s, 1, TRAP[0], TRAP[k-1], TRAP[k]) {
      TrapStep(s, k - 1);
    }
    TrapStep(s, 5);
    assert TRAP[2] in TRAP;
  }
}
