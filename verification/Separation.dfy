/** A barrier from one side of a layer to the opposite side separates the cells on its two sides. */
module Separation {
  import opened Cells
  import opened Reachability
  import opened Slices
  import opened Staircase
  import opened Barriers
  import opened FloodFill

  /** A line of corners that goes from left to right: consecutive corners are in line, and never one to the left. */
  ghost predicate Rightwards(path: seq<Pos>) {
    path != [] && forall k :: 0 < k < |path| ==> Onward(path[k-1], path[k])
  }

  /** A step between two corners in line that does not go to the left. */
  predicate Onward(a: Pos, b: Pos) {
    a.i <= b.i && (a.i == b.i || a.j == b.j)
  }

  /** The height at which the line crosses column `x`, between corners `x` and `x + 1`. */
  ghost function Height(path: seq<Pos>, x: int): int
    requires Rightwards(path) && path[0].i <= x < path[|path|-1].i
  {
    if x < path[1].i then path[0].j else Height(path[1..], x)
  }

  /** Where the line crosses a column there is a wall below the cell above it. */
  lemma {:induction false} CrossingHasWall(path: seq<Pos>, x: int)
    requires Rightwards(path) && path[0].i <= x < path[|path|-1].i
    ensures Pos(x, Height(path, x)) in PathWalls(path).bottom
  {
    if x >= path[1].i { CrossingHasWall(path[1..], x); }
  }

  /** From the corner at column `x` the line climbs, along walls, to the height at which it crosses the column. */
  lemma {:induction false} ClimbHasWalls(path: seq<Pos>, x: int, j: int)
    requires Rightwards(path) && path[0].i == x < path[|path|-1].i
    requires Min(path[0].j, Height(path, x)) <= j < Max(path[0].j, Height(path, x))
    ensures Pos(x, j) in PathWalls(path).left
  {
    assert path[1].i == x;
    if Min(path[0].j, path[1].j) <= j < Max(path[0].j, path[1].j) {
      assert Pos(x, j) in SegmentWalls(path[0], path[1]).left;
    } else {
      ClimbHasWalls(path[1..], x, j);
    }
  }

  /** Between the heights at which the line crosses two neighbouring columns there are walls. */
  lemma {:induction false} BetweenHeightsHasWalls(path: seq<Pos>, x: int, j: int)
    requires Rightwards(path) && path[0].i < x < path[|path|-1].i
    requires Min(Height(path, x - 1), Height(path, x)) <= j < Max(Height(path, x - 1), Height(path, x))
    ensures Pos(x, j) in PathWalls(path).left
  {
    if path[1].i < x {
      BetweenHeightsHasWalls(path[1..], x, j);
    } else {
      assert path[1].i == x;
      ClimbHasWalls(path[1..], x, j);
    }
  }

  /** A line from the left side of the layer to its right side. */
  ghost predicate LeftToRight(path: seq<Pos>, nx: nat) {
    Rightwards(path) && path[0].i == 0 && path[|path|-1].i == nx
  }

  ghost predicate Above(path: seq<Pos>, nx: nat, p: Pos)
    requires LeftToRight(path, nx) && 0 <= p.i < nx
  {
    Height(path, p.i) <= p.j
  }

  /** Every wall of the line that lies between two cells of the layer is one of `w`. */
  ghost predicate HasWalls(w: Walls, path: seq<Pos>, nx: nat, ny: nat) {
    forall p :: InBox(nx, ny, p) ==>
      (p in PathWalls(path).left ==> p in w.left) && (p in PathWalls(path).bottom ==> p in w.bottom)
  }

  /** No two cells in contact lie on different sides of a line of walls from left to right. */
  lemma LinkedOnSameSide(path: seq<Pos>, nx: nat, ny: nat, w: Walls, p: Pos, q: Pos)
    requires LeftToRight(path, nx) && HasWalls(w, path, nx, ny)
    requires InBox(nx, ny, p) && InBox(nx, ny, q) && Linked(w, p, q)
    ensures Above(path, nx, p) == Above(path, nx, q)
  {
    var i, j := Max(p.i, q.i), Max(p.j, q.j);
    assert InBox(nx, ny, Pos(i, j));
    if p.i == q.i {
      CrossingHasWall(path, i);
    } else {
      var low, high := Min(Height(path, i - 1), Height(path, i)), Max(Height(path, i - 1), Height(path, i));
      if low <= j < high {
        BetweenHeightsHasWalls(path, i, j);
      }
    }
  }

  /** Walking a line backwards, one passes the same walls. */
  function Backwards(path: seq<Pos>): (back: seq<Pos>)
    ensures |back| == |path|
    ensures forall k :: 0 <= k < |path| ==> back[k] == path[|path| - 1 - k]
  {
    if path == [] then [] else Backwards(path[1..]) + [path[0]]
  }

  lemma {:induction false} WallsAppend(path: seq<Pos>, c: Pos)
    requires path != []
    ensures
      var w, v := PathWalls(path + [c]), Joined(PathWalls(path), SegmentWalls(path[|path|-1], c));
      w.left == v.left && w.bottom == v.bottom
  {
    var longer := path + [c];
    if |path| > 1 {
      WallsAppend(path[1..], c);
      assert longer[1..] == path[1..] + [c];
    } else {
      assert longer[1..] == [c];
    }
  }

  lemma {:induction false} BackwardsWalls(path: seq<Pos>)
    ensures PathWalls(Backwards(path)).left == PathWalls(path).left
    ensures PathWalls(Backwards(path)).bottom == PathWalls(path).bottom
  {
    if |path| > 1 {
      var back := Backwards(path[1..]);
      BackwardsWalls(path[1..]);
      WallsAppend(back, path[0]);
      assert back[|back|-1] == path[1];
    }
  }

  /** The layer seen with rows and columns exchanged. */
  function Turned(p: Pos): Pos { Pos(p.j, p.i) }

  ghost function TurnedWalls(w: Walls): Walls {
    Walls(set p | p in w.bottom :: Turned(p), set p | p in w.left :: Turned(p))
  }

  function TurnedPath(path: seq<Pos>): (turned: seq<Pos>)
    ensures |turned| == |path|
    ensures forall k :: 0 <= k < |path| ==> turned[k] == Turned(path[k])
  {
    seq(|path|, k requires 0 <= k < |path| => Turned(path[k]))
  }

  lemma TurnedMembers(w: Walls, p: Pos)
    ensures Turned(p) in TurnedWalls(w).left <==> p in w.bottom
    ensures Turned(p) in TurnedWalls(w).bottom <==> p in w.left
  {
    assert Turned(Turned(p)) == p;
  }

  lemma TurnedLinks(w: Walls, a: Pos, b: Pos)
    requires Linked(w, a, b)
    ensures Linked(TurnedWalls(w), Turned(a), Turned(b))
  {
    TurnedMembers(w, a);
    TurnedMembers(w, b);
  }

  lemma TurnedSegment(a: Pos, b: Pos, p: Pos)
    ensures Turned(p) in SegmentWalls(Turned(a), Turned(b)).left <==> p in SegmentWalls(a, b).bottom
    ensures Turned(p) in SegmentWalls(Turned(a), Turned(b)).bottom <==> p in SegmentWalls(a, b).left
  {
  }

  lemma {:induction false} TurnedPathWalls(path: seq<Pos>, p: Pos)
    ensures Turned(p) in PathWalls(TurnedPath(path)).left <==> p in PathWalls(path).bottom
    ensures Turned(p) in PathWalls(TurnedPath(path)).bottom <==> p in PathWalls(path).left
  {
    if |path| > 1 {
      TurnedPathWalls(path[1..], p);
      TurnedSegment(path[0], path[1], p);
      assert TurnedPath(path)[1..] == TurnedPath(path[1..]);
    }
  }

  /** The walls of a line are walls of the turned layer along the turned line. */
  lemma TurnedHasWalls(path: seq<Pos>, nx: nat, ny: nat, w: Walls)
    requires HasWalls(w, path, nx, ny)
    ensures HasWalls(TurnedWalls(w), TurnedPath(path), ny, nx)
  {
    forall p | InBox(ny, nx, p)
      ensures p in PathWalls(TurnedPath(path)).left ==> p in TurnedWalls(w).left
      ensures p in PathWalls(TurnedPath(path)).bottom ==> p in TurnedWalls(w).bottom
    {
      var q := Turned(p);
      assert Turned(q) == p && InBox(nx, ny, q);
      TurnedPathWalls(path, q);
      TurnedMembers(w, q);
    }
  }

  /** The barrier from `p1` to `p2` goes from one side of the layer to the opposite side. */
  ghost predicate Crosses(nx: nat, ny: nat, p1: Pos, p2: Pos) {
    || (p1.i == 0 && p2.i == nx) || (p1.i == nx && p2.i == 0)
    || (p1.j == 0 && p2.j == ny) || (p1.j == ny && p2.j == 0)
  }

  /** The barrier read from left to right; from the bottom upwards it is read in the turned layer. */
  ghost function ReadPath(nx: nat, ny: nat, p1: Pos, p2: Pos): seq<Pos> {
    if p1.i == 0 && p2.i == nx then BarrierPath(p1, p2)
    else if p1.i == nx && p2.i == 0 then Backwards(BarrierPath(p1, p2))
    else if p1.j == 0 then TurnedPath(BarrierPath(p1, p2))
    else TurnedPath(Backwards(BarrierPath(p1, p2)))
  }

  ghost predicate ReadTurned(nx: nat, p1: Pos, p2: Pos) {
    !(p1.i == 0 && p2.i == nx) && !(p1.i == nx && p2.i == 0)
  }

  ghost predicate InCorners(nx: nat, ny: nat, p: Pos) {
    0 <= p.i <= nx && 0 <= p.j <= ny
  }

  /** A step towards the end of a barrier, in the four ways of reading it. */
  ghost predicate Towards(p1: Pos, p2: Pos, a: Pos, b: Pos) {
    && (p1.i <= p2.i ==> Onward(a, b)) && (p1.i >= p2.i ==> Onward(b, a))
    && (p1.j <= p2.j ==> Onward(Turned(a), Turned(b))) && (p1.j >= p2.j ==> Onward(Turned(b), Turned(a)))
  }

  /** The barrier path runs one way along the rows, one way along the columns, and inside its rectangle. */
  lemma BarrierPathShape(p1: Pos, p2: Pos)
    ensures
      var path := BarrierPath(p1, p2);
      && path != [] && path[0] == p1 && path[|path|-1] == p2
      && (forall k :: 0 <= k < |path| ==> InRectangle(p1, p2, path[k]))
      && (forall k :: 0 < k < |path| ==> Towards(p1, p2, path[k-1], path[k]))
  {
    if p1.i != p2.i && p1.j != p2.j {
      StaircaseFollowsLine(p1, p2);
      SignTimes(p2.i - p1.i, 1);
      SignTimes(p2.j - p1.j, 1);
      var path := BarrierPath(p1, p2);
      hide Cross, BarrierPath;
      forall k | 0 < k < |path| ensures Towards(p1, p2, path[k-1], path[k]) {
        assert UnitStep(p1, p2, path[k-1], path[k]);
      }
    }
  }

  lemma ReadForwards(path: seq<Pos>)
    requires path != []
    requires forall k :: 0 < k < |path| ==> Onward(Turned(path[k-1]), Turned(path[k]))
    ensures Rightwards(TurnedPath(path))
  {
  }

  lemma ReadBackwards(path: seq<Pos>)
    requires path != []
    requires forall k :: 0 < k < |path| ==> Onward(path[k], path[k-1])
    ensures Rightwards(Backwards(path))
  {
    var back := Backwards(path);
    forall k | 0 < k < |path| ensures Onward(back[k-1], back[k]) {
      assert Onward(path[|path| - k], path[|path| - k - 1]);
    }
  }

  lemma BackwardsTurned(path: seq<Pos>)
    ensures TurnedPath(Backwards(path)) == Backwards(TurnedPath(path))
  {
  }

  /** Read the right way, a crossing barrier goes from left to right and stays between the heights of its ends. */
  lemma ReadPathShape(nx: nat, ny: nat, p1: Pos, p2: Pos)
    requires InCorners(nx, ny, p1) && InCorners(nx, ny, p2) && Crosses(nx, ny, p1, p2)
    ensures
      var path, turned := ReadPath(nx, ny, p1, p2), ReadTurned(nx, p1, p2);
      && LeftToRight(path, if turned then ny else nx)
      && forall k :: 0 <= k < |path| ==>
        (if turned then Min(p1.i, p2.i) <= path[k].j <= Max(p1.i, p2.i)
         else Min(p1.j, p2.j) <= path[k].j <= Max(p1.j, p2.j))
  {
    hide BarrierPath;
    BarrierPathShape(p1, p2);
    var path := BarrierPath(p1, p2);
    BackwardsTurned(path);
    if p1.i == 0 && p2.i == nx {
    } else if p1.i == nx && p2.i == 0 {
      ReadBackwards(path);
    } else if p1.j == 0 {
      ReadForwards(path);
    } else {
      TurnedSteps(path);
      ReadBackwards(TurnedPath(path));
    }
  }

  lemma TurnedSteps(path: seq<Pos>)
    requires forall k :: 0 < k < |path| ==> Onward(Turned(path[k]), Turned(path[k-1]))
    ensures forall k :: 0 < k < |path| ==> Onward(TurnedPath(path)[k], TurnedPath(path)[k-1])
  {
    hide Onward;
  }

  /**
   * The line of a crossing barrier, read in the layer or in the turned layer, goes from side to side along its walls.
   */
  lemma ReadPathCrosses(nx: nat, ny: nat, p1: Pos, p2: Pos, w: Walls)
    requires InCorners(nx, ny, p1) && InCorners(nx, ny, p2) && Crosses(nx, ny, p1, p2)
    requires HasWalls(w, BarrierPath(p1, p2), nx, ny)
    ensures
      var path := ReadPath(nx, ny, p1, p2);
      if ReadTurned(nx, p1, p2) then LeftToRight(path, ny) && HasWalls(TurnedWalls(w), path, ny, nx)
      else LeftToRight(path, nx) && HasWalls(w, path, nx, ny)
  {
    ReadPathShape(nx, ny, p1, p2);
    var path := BarrierPath(p1, p2);
    BackwardsWalls(path);
    hide BarrierPath, Rightwards;
    assert HasWalls(w, Backwards(path), nx, ny);
    TurnedHasWalls(path, nx, ny, w);
    TurnedHasWalls(Backwards(path), nx, ny, w);
  }

  /** On which side of a crossing barrier a cell lies. */
  ghost predicate Beyond(nx: nat, ny: nat, p1: Pos, p2: Pos, q: Pos)
    requires InCorners(nx, ny, p1) && InCorners(nx, ny, p2) && Crosses(nx, ny, p1, p2) && InBox(nx, ny, q)
  {
    var path := ReadPath(nx, ny, p1, p2);
    ReadPathCrosses(nx, ny, p1, p2, BarrierWalls(p1, p2));
    if ReadTurned(nx, p1, p2) then Above(path, ny, Turned(q)) else Above(path, nx, q)
  }

  lemma {:induction false} HeightInRange(path: seq<Pos>, x: int, low: int, high: int)
    requires Rightwards(path) && path[0].i <= x < path[|path|-1].i
    requires forall k :: 0 <= k < |path| ==> low <= path[k].j <= high
    ensures low <= Height(path, x) <= high
  {
    if x >= path[1].i { HeightInRange(path[1..], x, low, high); }
  }

  /** Cells past both ends of the barrier are on one side of it, and cells before both ends on the other. */
  lemma SidesOfBarrier(nx: nat, ny: nat, p1: Pos, p2: Pos, q: Pos)
    requires InCorners(nx, ny, p1) && InCorners(nx, ny, p2) && Crosses(nx, ny, p1, p2) && InBox(nx, ny, q)
    ensures !ReadTurned(nx, p1, p2) && q.j >= Max(p1.j, p2.j) ==> Beyond(nx, ny, p1, p2, q)
    ensures !ReadTurned(nx, p1, p2) && q.j < Min(p1.j, p2.j) ==> !Beyond(nx, ny, p1, p2, q)
    ensures ReadTurned(nx, p1, p2) && q.i >= Max(p1.i, p2.i) ==> Beyond(nx, ny, p1, p2, q)
    ensures ReadTurned(nx, p1, p2) && q.i < Min(p1.i, p2.i) ==> !Beyond(nx, ny, p1, p2, q)
  {
    ReadPathShape(nx, ny, p1, p2);
    var path := ReadPath(nx, ny, p1, p2);
    hide ReadPath, Rightwards, Height;
    if ReadTurned(nx, p1, p2) {
      HeightInRange(path, q.j, Min(p1.i, p2.i), Max(p1.i, p2.i));
    } else {
      HeightInRange(path, q.i, Min(p1.j, p2.j), Max(p1.j, p2.j));
    }
  }

  /** The walls between cells that a layer has once a barrier has been added to it. */
  lemma AddedWalls(s: Slice, p1: Pos, p2: Pos)
    requires s.Wf()
    ensures HasWalls(WithWalls(s, BarrierWalls(p1, p2)).Barriers(), BarrierPath(p1, p2), s.nx, s.ny)
  {
    hide BarrierPath, PathWalls;
  }

  /** Cells on different sides of a crossing barrier are not in contact. */
  lemma NoContactAcross(s: Slice, p1: Pos, p2: Pos, p: Pos, q: Pos)
    requires s.Wf() && InCorners(s.nx, s.ny, p1) && InCorners(s.nx, s.ny, p2) && Crosses(s.nx, s.ny, p1, p2)
    requires InBox(s.nx, s.ny, p) && InBox(s.nx, s.ny, q)
    requires Beyond(s.nx, s.ny, p1, p2, p) != Beyond(s.nx, s.ny, p1, p2, q)
    ensures !Linked(WithWalls(s, BarrierWalls(p1, p2)).Barriers(), p, q)
  {
    var w := WithWalls(s, BarrierWalls(p1, p2)).Barriers();
    AddedWalls(s, p1, p2);
    ReadPathCrosses(s.nx, s.ny, p1, p2, w);
    hide BarrierPath, Rightwards, HasWalls, Height, TurnedWalls;
    if Linked(w, p, q) {
      if ReadTurned(s.nx, p1, p2) {
        TurnedLinks(w, p, q);
        LinkedOnSameSide(ReadPath(s.nx, s.ny, p1, p2), s.ny, s.nx, TurnedWalls(w), Turned(p), Turned(q));
      } else {
        LinkedOnSameSide(ReadPath(s.nx, s.ny, p1, p2), s.nx, s.ny, w, p, q);
      }
    }
  }

  /** The layer after a barrier has been added. */
  ghost function WithBarrier(s: Slice, p1: Pos, p2: Pos): (t: Slice)
    requires s.Wf() && InCorners(s.nx, s.ny, p1) && InCorners(s.nx, s.ny, p2)
    ensures t.Wf() && t.nx == s.nx && t.ny == s.ny && t.Values() == s.Values()
    ensures t == WithWalls(s, BarrierWalls(p1, p2))
  {
    hide BarrierWalls;
    WithWalls(s, BarrierWalls(p1, p2))
  }

  /**
   * Once a barrier from one side of the layer to the opposite side has been added, recolouring connected cells
   * from a cell on one side of it changes no cell on the other side.
   */
  lemma BarrierSeparates(s: Slice, p1: Pos, p2: Pos, p: Pos, q: Pos, org: int, colour: int)
    requires s.Wf() && InCorners(s.nx, s.ny, p1) && InCorners(s.nx, s.ny, p2) && Crosses(s.nx, s.ny, p1, p2)
    requires InBox(s.nx, s.ny, p) && InBox(s.nx, s.ny, q)
    requires Beyond(s.nx, s.ny, p1, p2, p) != Beyond(s.nx, s.ny, p1, p2, q)
    ensures
      var t := WithBarrier(s, p1, p2);
      Recoloured(t.Values(), t.Barriers(), p, org, colour)[q] == s.Values()[q]
  {
    var t := WithBarrier(s, p1, p2);
    var w, values := t.Barriers(), t.Values();
    var region := Region(values, org);
    var side := set r | r in values && Beyond(s.nx, s.ny, p1, p2, r) == Beyond(s.nx, s.ny, p1, p2, p);
    hide BarrierPath, Rightwards, HasWalls, Height, Beyond, WithWalls, WithBarrier, Slice.Barriers, Slice.Values;
    hide BarrierWalls, Crosses;
    forall a, b | a in side && b in region && Linked(w, a, b) ensures b in side {
      if b !in side { NoContactAcross(s, p1, p2, a, b); }
    }
    assert Closed(w, region, side);
    ComponentInClosed(w, region, side, p);
  }
}
