/** Exactly which cells are in contact once barriers have been added, and which cells a fill reaches then. */
module Contact {
  import opened Cells
  import opened Reachability
  import opened Slices
  import opened Layers
  import opened Staircase
  import opened Barriers
  import opened FloodFill
  import opened Separation

  /** The side that two cells share lies on a segment: all corners that both of them have lie in its rectangle. */
  ghost predicate SideOn(a: Pos, b: Pos, p: Pos, q: Pos) {
    forall c :: c in CellCorners(p) * CellCorners(q) ==> InRectangle(a, b, c)
  }

  predicate InLine(a: Pos, b: Pos) {
    a.i == b.i || a.j == b.j
  }

  /** In a new layer exactly the cells at distance one are in contact. */
  lemma NewLayerContact(nx: nat, ny: nat, p: Pos, q: Pos)
    ensures Linked(BlankSlice(nx, ny).Barriers(), p, q) <==> Abs(p.i - q.i) + Abs(p.j - q.j) == 1
  {
    assert BlankSlice(nx, ny).Barriers() == NO_WALLS;
  }

  lemma SharedCorners(p: Pos)
    ensures CellCorners(p) * CellCorners(Right(p)) == {Right(p), Right(Up(p))}
    ensures CellCorners(p) * CellCorners(Up(p)) == {Up(p), Right(Up(p))}
  {
  }

  lemma SharedSide(a: Pos, b: Pos, p: Pos)
    ensures SideOn(a, b, p, Right(p)) <==> InRectangle(a, b, Right(p)) && InRectangle(a, b, Right(Up(p)))
    ensures SideOn(a, b, p, Up(p)) <==> InRectangle(a, b, Up(p)) && InRectangle(a, b, Right(Up(p)))
  {
    SharedCorners(p);
    hide InRectangle, CellCorners;
    if SideOn(a, b, p, Right(p)) { assert Right(p) in CellCorners(p) * CellCorners(Right(p)); }
    if SideOn(a, b, p, Up(p)) { assert Up(p) in CellCorners(p) * CellCorners(Up(p)); }
  }

  lemma SideOnSymmetric(a: Pos, b: Pos, p: Pos, q: Pos)
    ensures SideOn(a, b, p, q) == SideOn(a, b, q, p)
  {
    assert CellCorners(p) * CellCorners(q) == CellCorners(q) * CellCorners(p);
  }

  /** Which sides the walls of a segment are. */
  lemma SegmentSides(a: Pos, b: Pos, p: Pos)
    requires InLine(a, b)
    ensures Right(p) in SegmentWalls(a, b).left <==> SideOn(a, b, p, Right(p))
    ensures Up(p) in SegmentWalls(a, b).bottom <==> SideOn(a, b, p, Up(p))
  {
    SharedSide(a, b, p);
  }

  /** Contact across the right and the upper side of a cell. */
  lemma LinkedByFlags(w: Walls, p: Pos)
    ensures Linked(w, p, Right(p)) == Linked(w, Right(p), p) == (Right(p) !in w.left)
    ensures Linked(w, p, Up(p)) == Linked(w, Up(p), p) == (Up(p) !in w.bottom)
  {
  }

  /** Of two adjacent cells one lies to the right of the other or above it. */
  lemma AdjacentCells(p: Pos, q: Pos)
    requires Adjacent(p, q)
    ensures q == Right(p) || q == Up(p) || p == Right(q) || p == Up(q)
  {
  }

  lemma FlagsAfter(s: Slice, w: Walls, p: Pos)
    requires s.Wf() && InBox(s.nx, s.ny, p)
    ensures
      var now, before := WithWalls(s, w).Barriers(), s.Barriers();
      && (p in now.left <==> p in before.left || p in w.left)
      && (p in now.bottom <==> p in before.bottom || p in w.bottom)
  {
  }

  /**
   * Two adjacent cells are in contact after a straight barrier just when they were in contact before and the barrier
   * does not cover the side between them.
   */
  lemma SegmentContact(s: Slice, a: Pos, b: Pos, p: Pos, q: Pos)
    requires s.Wf() && InLine(a, b) && InBox(s.nx, s.ny, p) && InBox(s.nx, s.ny, q) && Adjacent(p, q)
    ensures Linked(WithWalls(s, SegmentWalls(a, b)).Barriers(), p, q) <==>
            Linked(s.Barriers(), p, q) && !SideOn(a, b, p, q)
  {
    AdjacentCells(p, q);
    SideOnSymmetric(a, b, p, q);
    FlagsAfter(s, SegmentWalls(a, b), p);
    FlagsAfter(s, SegmentWalls(a, b), q);
    SegmentSides(a, b, p);
    SegmentSides(a, b, q);
    hide SideOn, SegmentWalls, Linked, WithWalls, Slice.Barriers;
    LinkedByFlags(s.Barriers(), p);
    LinkedByFlags(s.Barriers(), q);
    LinkedByFlags(WithWalls(s, SegmentWalls(a, b)).Barriers(), p);
    LinkedByFlags(WithWalls(s, SegmentWalls(a, b)).Barriers(), q);
  }

  /** The side between two cells lies on one of the segments of a path. */
  ghost predicate SideOnPath(path: seq<Pos>, p: Pos, q: Pos) {
    |path| >= 2 && (SideOn(path[0], path[1], p, q) || SideOnPath(path[1..], p, q))
  }

  /** The same after a barrier along a path of segments. */
  lemma {:induction false} PathContact(s: Slice, path: seq<Pos>, p: Pos, q: Pos)
    requires s.Wf() && InBox(s.nx, s.ny, p) && InBox(s.nx, s.ny, q) && Adjacent(p, q)
    requires forall k :: 0 < k < |path| ==> InLine(path[k-1], path[k])
    ensures Linked(WithWalls(s, PathWalls(path)).Barriers(), p, q) <==>
            Linked(s.Barriers(), p, q) && !SideOnPath(path, p, q)
    decreases |path|
  {
    hide SideOn, SegmentWalls, Linked, WithWalls, Slice.Barriers, Adjacent;
    if |path| < 2 {
      WithNoWalls(s);
    } else {
      var walls := SegmentWalls(path[0], path[1]);
      var t := WithWalls(s, walls);
      WithWallsTwice(s, walls, PathWalls(path[1..]));
      SegmentContact(s, path[0], path[1], p, q);
      PathContact(t, path[1..], p, q);
    }
  }

  /** The walls of a line that goes to the right do not lie left of its start. */
  lemma {:induction false} WallsInRange(path: seq<Pos>, x: int, j: int)
    requires Rightwards(path) && (Pos(x, j) in PathWalls(path).left || Pos(x, j) in PathWalls(path).bottom)
    ensures path[0].i <= x
  {
    if |path| >= 2 {
      var w := SegmentWalls(path[0], path[1]);
      if Pos(x, j) !in w.left && Pos(x, j) !in w.bottom { WallsInRange(path[1..], x, j); }
    }
  }

  /** The line crosses a column where the only wall in the column is. */
  lemma {:induction false} WallAtHeight(path: seq<Pos>, x: int, j: int)
    requires Rightwards(path) && path[0].i <= x < path[|path|-1].i && Pos(x, j) in PathWalls(path).bottom
    ensures j == Height(path, x)
  {
    if Pos(x, j) !in SegmentWalls(path[0], path[1]).bottom {
      WallsInRange(path[1..], x, j);
      WallAtHeight(path[1..], x, j);
    }
  }

  /** A line that only climbs, or only descends. */
  ghost predicate OneWay(path: seq<Pos>, up: bool) {
    forall k :: 0 < k < |path| ==> if up then path[k-1].j <= path[k].j else path[k-1].j >= path[k].j
  }

  lemma {:induction false} HeightBeyondStart(path: seq<Pos>, up: bool, x: int)
    requires Rightwards(path) && OneWay(path, up) && path[0].i <= x < path[|path|-1].i
    ensures if up then path[0].j <= Height(path, x) else path[0].j >= Height(path, x)
  {
    if x >= path[1].i { HeightBeyondStart(path[1..], up, x); }
  }

  lemma {:induction false} HeightOneWay(path: seq<Pos>, up: bool, x: int, y: int)
    requires Rightwards(path) && OneWay(path, up) && path[0].i <= x <= y < path[|path|-1].i
    ensures if up then Height(path, x) <= Height(path, y) else Height(path, x) >= Height(path, y)
  {
    if x >= path[1].i { HeightOneWay(path[1..], up, x, y); } else { HeightBeyondStart(path, up, y); }
  }

  predicate IsBetween(low: int, high: int, j: int) {
    Min(low, high) <= j < Max(low, high)
  }

  /** The walls above or below its first corner, up to the height at which the line leaves. */
  lemma {:induction false} ClimbWalls(path: seq<Pos>, up: bool, x: int, j: int)
    requires Rightwards(path) && OneWay(path, up) && path[0].i == x < path[|path|-1].i
    requires Pos(x, j) in PathWalls(path).left
    ensures IsBetween(path[0].j, Height(path, x), j)
  {
    if path[1].i > x {
      WallsInRange(path[1..], x, j);
    } else {
      HeightBeyondStart(path[1..], up, x);
      if Pos(x, j) !in SegmentWalls(path[0], path[1]).left { ClimbWalls(path[1..], up, x, j); }
    }
  }

  /** Between two columns there are only walls between the heights at which the line crosses them. */
  lemma {:induction false} WallsBetweenHeights(path: seq<Pos>, up: bool, x: int, j: int)
    requires Rightwards(path) && OneWay(path, up) && path[0].i < x < path[|path|-1].i
    requires Pos(x, j) in PathWalls(path).left
    ensures IsBetween(Height(path, x - 1), Height(path, x), j)
  {
    if path[1].i < x {
      WallsBetweenHeights(path[1..], up, x, j);
    } else if path[1].i == x {
      ClimbWalls(path[1..], up, x, j);
    } else {
      WallsInRange(path[1..], x, j);
    }
  }

  /** Adjacent cells on the same side of the line have no wall of it between them. */
  lemma SameSideLinked(path: seq<Pos>, up: bool, nx: nat, ny: nat, p: Pos, q: Pos)
    requires LeftToRight(path, nx) && OneWay(path, up) && InBox(nx, ny, p) && InBox(nx, ny, q) && Adjacent(p, q)
    requires Above(path, nx, p) == Above(path, nx, q)
    ensures Linked(PathWalls(path), p, q)
  {
    AdjacentCells(p, q);
    LinkedByFlags(PathWalls(path), p);
    LinkedByFlags(PathWalls(path), q);
    hide Linked, PathWalls, Rightwards;
    var c := Pos(Max(p.i, q.i), Max(p.j, q.j));
    if p.j == q.j {
      if c in PathWalls(path).left { WallsBetweenHeights(path, up, c.i, c.j); }
    } else {
      if c in PathWalls(path).bottom { WallAtHeight(path, c.i, c.j); }
    }
  }

  /** A crossing barrier, read from left to right, only climbs or only descends. */
  lemma ReadPathOneWay(nx: nat, ny: nat, p1: Pos, p2: Pos) returns (up: bool)
    requires InCorners(nx, ny, p1) && InCorners(nx, ny, p2) && Crosses(nx, ny, p1, p2)
    ensures OneWay(ReadPath(nx, ny, p1, p2), up)
  {
    hide BarrierPath;
    BarrierPathShape(p1, p2);
    var path := BarrierPath(p1, p2);
    if p1.i == 0 && p2.i == nx {
      up := p1.j <= p2.j;
    } else if p1.i == nx && p2.i == 0 {
      up := p2.j <= p1.j;
      OneWayBack(path, !up);
    } else if p1.j == 0 {
      up := p1.i <= p2.i;
    } else {
      up := p2.i <= p1.i;
      OneWayBack(TurnedPath(path), !up);
      BackwardsTurned(path);
    }
  }

  lemma OneWayBack(path: seq<Pos>, up: bool)
    requires OneWay(path, up)
    ensures OneWay(Backwards(path), !up)
  {
    var back := Backwards(path);
    forall k | 0 < k < |path| ensures if up then back[k-1].j >= back[k].j else back[k-1].j <= back[k].j {
      assert path[|path| - k - 1] == back[k] && path[|path| - k] == back[k-1];
    }
  }

  /** The walls of the line as it is read are those of the barrier, in the layer or in the turned layer. */
  lemma ReadPathWalls(nx: nat, ny: nat, p1: Pos, p2: Pos, p: Pos, q: Pos)
    requires Adjacent(p, q)
    ensures
      var path := ReadPath(nx, ny, p1, p2);
      if ReadTurned(nx, p1, p2) then
        Linked(PathWalls(path), Turned(p), Turned(q)) == Linked(BarrierWalls(p1, p2), p, q)
      else
        Linked(PathWalls(path), p, q) == Linked(BarrierWalls(p1, p2), p, q)
  {
    var path := BarrierPath(p1, p2);
    hide BarrierPath, PathWalls;
    BackwardsWalls(path);
    TurnedPathWalls(path, p);
    TurnedPathWalls(path, q);
    TurnedPathWalls(Backwards(path), p);
    TurnedPathWalls(Backwards(path), q);
  }

  lemma AdjacentTurned(p: Pos, q: Pos)
    ensures Adjacent(p, q) == Adjacent(Turned(p), Turned(q))
  {
  }

  /** Adjacent cells on the same side of a crossing barrier have no wall of it between them. */
  lemma BarrierLinks(nx: nat, ny: nat, p1: Pos, p2: Pos, p: Pos, q: Pos)
    requires InCorners(nx, ny, p1) && InCorners(nx, ny, p2) && Crosses(nx, ny, p1, p2)
    requires InBox(nx, ny, p) && InBox(nx, ny, q) && Adjacent(p, q)
    requires Beyond(nx, ny, p1, p2, p) == Beyond(nx, ny, p1, p2, q)
    ensures Linked(BarrierWalls(p1, p2), p, q)
  {
    hide ReadPath, Rightwards, OneWay, BarrierWalls, PathWalls, Height, Linked, Crosses;
    var up := ReadPathOneWay(nx, ny, p1, p2);
    ReadPathShape(nx, ny, p1, p2);
    ReadPathWalls(nx, ny, p1, p2, p, q);
    AdjacentTurned(p, q);
    var path := ReadPath(nx, ny, p1, p2);
    if ReadTurned(nx, p1, p2) {
      SameSideLinked(path, up, ny, nx, Turned(p), Turned(q));
    } else {
      SameSideLinked(path, up, nx, ny, p, q);
    }
  }

  /**
   * Adjacent cells are in contact after a crossing barrier just when they were before and lie on the same side of it.
   */
  lemma ContactAfterBarrier(s: Slice, p1: Pos, p2: Pos, p: Pos, q: Pos)
    requires s.Wf() && InCorners(s.nx, s.ny, p1) && InCorners(s.nx, s.ny, p2) && Crosses(s.nx, s.ny, p1, p2)
    requires InBox(s.nx, s.ny, p) && InBox(s.nx, s.ny, q) && Adjacent(p, q)
    ensures Linked(WithWalls(s, BarrierWalls(p1, p2)).Barriers(), p, q) <==>
            Linked(s.Barriers(), p, q) && Beyond(s.nx, s.ny, p1, p2, p) == Beyond(s.nx, s.ny, p1, p2, q)
  {
    var walls := BarrierWalls(p1, p2);
    AdjacentCells(p, q);
    FlagsAfter(s, walls, p);
    FlagsAfter(s, walls, q);
    hide WithWalls, Slice.Barriers, BarrierWalls, Linked, Beyond, Crosses;
    LinkedByFlags(s.Barriers(), p);
    LinkedByFlags(s.Barriers(), q);
    LinkedByFlags(walls, p);
    LinkedByFlags(walls, q);
    LinkedByFlags(WithWalls(s, walls).Barriers(), p);
    LinkedByFlags(WithWalls(s, walls).Barriers(), q);
    if Beyond(s.nx, s.ny, p1, p2, p) == Beyond(s.nx, s.ny, p1, p2, q) {
      BarrierLinks(s.nx, s.ny, p1, p2, p, q);
    } else {
      NoContactAcross(s, p1, p2, p, q);
    }
  }

  /** All adjacent cells of a set are linked. */
  ghost predicate Whole(w: Walls, cells: set<Pos>) {
    forall p, q :: p in cells && q in cells && Adjacent(p, q) ==> Linked(w, p, q)
  }

  /** The cells of a column or of a row between two cells are connected, if all of them belong to a whole set. */
  lemma {:induction false} ColumnConnected(w: Walls, cells: set<Pos>, i: int, j1: int, j2: int)
    requires Whole(w, cells) && j1 <= j2 && forall j :: j1 <= j <= j2 ==> Pos(i, j) in cells
    ensures Connected(w, cells, Pos(i, j1), Pos(i, j2))
    decreases j2 - j1
  {
    if j1 == j2 {
      ConnectedRefl(w, cells, Pos(i, j1));
    } else {
      ColumnConnected(w, cells, i, j1, j2 - 1);
      assert Adjacent(Pos(i, j2 - 1), Pos(i, j2));
      ConnectedStep(w, cells, Pos(i, j1), Pos(i, j2 - 1), Pos(i, j2));
    }
  }

  lemma {:induction false} RowConnected(w: Walls, cells: set<Pos>, j: int, i1: int, i2: int)
    requires Whole(w, cells) && i1 <= i2 && forall i :: i1 <= i <= i2 ==> Pos(i, j) in cells
    ensures Connected(w, cells, Pos(i1, j), Pos(i2, j))
    decreases i2 - i1
  {
    if i1 == i2 {
      ConnectedRefl(w, cells, Pos(i1, j));
    } else {
      RowConnected(w, cells, j, i1, i2 - 1);
      assert Adjacent(Pos(i2 - 1, j), Pos(i2, j));
      ConnectedStep(w, cells, Pos(i1, j), Pos(i2 - 1, j), Pos(i2, j));
    }
  }

  /** The cells of a column, or of a row, between two given ones all belong to the set. */
  ghost predicate ColumnIn(cells: set<Pos>, i: int, j1: int, j2: int) {
    forall j :: Min(j1, j2) <= j <= Max(j1, j2) ==> Pos(i, j) in cells
  }

  ghost predicate RowIn(cells: set<Pos>, j: int, i1: int, i2: int) {
    forall i :: Min(i1, i2) <= i <= Max(i1, i2) ==> Pos(i, j) in cells
  }

  lemma AlongColumn(w: Walls, cells: set<Pos>, i: int, j1: int, j2: int)
    requires Whole(w, cells) && ColumnIn(cells, i, j1, j2)
    ensures Connected(w, cells, Pos(i, j1), Pos(i, j2))
  {
    ColumnConnected(w, cells, i, Min(j1, j2), Max(j1, j2));
    if j2 < j1 { ConnectedSym(w, cells, Pos(i, j2), Pos(i, j1)); }
  }

  lemma AlongRow(w: Walls, cells: set<Pos>, j: int, i1: int, i2: int)
    requires Whole(w, cells) && RowIn(cells, j, i1, i2)
    ensures Connected(w, cells, Pos(i1, j), Pos(i2, j))
  {
    RowConnected(w, cells, j, Min(i1, i2), Max(i1, i2));
    if i2 < i1 { ConnectedSym(w, cells, Pos(i2, j), Pos(i1, j)); }
  }

  /**
   * From one cell along its column, then along a row, and along the column of the other cell; or rows and columns
   * exchanged.
   */
  lemma ByRow(w: Walls, cells: set<Pos>, p: Pos, q: Pos, j: int)
    requires Whole(w, cells) && ColumnIn(cells, p.i, p.j, j) && RowIn(cells, j, p.i, q.i) &&
             ColumnIn(cells, q.i, j, q.j)
    ensures Connected(w, cells, p, q)
  {
    hide Connected, Whole, ColumnIn, RowIn;
    AlongColumn(w, cells, p.i, p.j, j);
    AlongRow(w, cells, j, p.i, q.i);
    AlongColumn(w, cells, q.i, j, q.j);
    ConnectedTrans(w, cells, p, Pos(p.i, j), Pos(q.i, j));
    ConnectedTrans(w, cells, p, Pos(q.i, j), q);
  }

  lemma ByColumn(w: Walls, cells: set<Pos>, p: Pos, q: Pos, i: int)
    requires Whole(w, cells) && RowIn(cells, p.j, p.i, i) && ColumnIn(cells, i, p.j, q.j) && RowIn(cells, q.j, i, q.i)
    ensures Connected(w, cells, p, q)
  {
    hide Connected, Whole, ColumnIn, RowIn;
    AlongRow(w, cells, p.j, p.i, i);
    AlongColumn(w, cells, i, p.j, q.j);
    AlongRow(w, cells, q.j, i, q.i);
    ConnectedTrans(w, cells, p, Pos(i, p.j), Pos(i, q.j));
    ConnectedTrans(w, cells, p, Pos(i, q.j), q);
  }

  /**
   * On the side of a cell, its column belongs to the side as far as the rim of the layer, and so does the rim between
   * two cells.
   */
  lemma SideToRim(path: seq<Pos>, up: bool, nx: nat, ny: nat, p: Pos, q: Pos, x: int, j: int)
    requires LeftToRight(path, nx) && OneWay(path, up) && InBox(nx, ny, p) && InBox(nx, ny, q)
    requires Above(path, nx, p) == Above(path, nx, q)
    ensures
      var rim := if Above(path, nx, p) then ny - 1 else 0;
      && (Min(p.j, rim) <= j <= Max(p.j, rim) ==>
          InBox(nx, ny, Pos(p.i, j)) && Above(path, nx, Pos(p.i, j)) == Above(path, nx, p))
      && (Min(p.i, q.i) <= x <= Max(p.i, q.i) ==>
          InBox(nx, ny, Pos(x, rim)) && Above(path, nx, Pos(x, rim)) == Above(path, nx, p))
  {
    hide Rightwards, OneWay, Height;
    if Min(p.i, q.i) <= x <= Max(p.i, q.i) {
      HeightOneWay(path, up, Min(p.i, q.i), x);
      HeightOneWay(path, up, x, Max(p.i, q.i));
    }
  }

  /** The cells of the layer on the side of a cell. */
  ghost function OwnSide(nx: nat, ny: nat, p1: Pos, p2: Pos, p: Pos): set<Pos>
    requires InCorners(nx, ny, p1) && InCorners(nx, ny, p2) && Crosses(nx, ny, p1, p2) && InBox(nx, ny, p)
  {
    set q | q in Box(nx, ny) && Beyond(nx, ny, p1, p2, q) == Beyond(nx, ny, p1, p2, p)
  }

  /** The row or the column at the rim of the layer on one side of a barrier. */
  ghost function Rim(nx: nat, ny: nat, p1: Pos, p2: Pos, beyond: bool): int {
    if !beyond then 0 else if ReadTurned(nx, p1, p2) then nx - 1 else ny - 1
  }

  /** From a cell to the rim, and along the rim, one stays on its side. */
  lemma OwnSideToRim(nx: nat, ny: nat, p1: Pos, p2: Pos, p: Pos, q: Pos)
    requires InCorners(nx, ny, p1) && InCorners(nx, ny, p2) && Crosses(nx, ny, p1, p2)
    requires InBox(nx, ny, p) && q in OwnSide(nx, ny, p1, p2, p)
    ensures
      var side, rim := OwnSide(nx, ny, p1, p2, p), Rim(nx, ny, p1, p2, Beyond(nx, ny, p1, p2, p));
      if ReadTurned(nx, p1, p2) then RowIn(side, p.j, p.i, rim) && ColumnIn(side, rim, p.j, q.j)
      else ColumnIn(side, p.i, p.j, rim) && RowIn(side, rim, p.i, q.i)
  {
    hide ReadPath, Rightwards, OneWay, Above, Crosses, BarrierWalls;
    var up := ReadPathOneWay(nx, ny, p1, p2);
    ReadPathShape(nx, ny, p1, p2);
    var path, side := ReadPath(nx, ny, p1, p2), OwnSide(nx, ny, p1, p2, p);
    var rim := Rim(nx, ny, p1, p2, Beyond(nx, ny, p1, p2, p));
    if ReadTurned(nx, p1, p2) {
      forall i | Min(p.i, rim) <= i <= Max(p.i, rim) ensures Pos(i, p.j) in side {
        SideToRim(path, up, ny, nx, Turned(p), Turned(q), p.j, i);
      }
      forall j | Min(p.j, q.j) <= j <= Max(p.j, q.j) ensures Pos(rim, j) in side {
        SideToRim(path, up, ny, nx, Turned(p), Turned(q), j, p.i);
      }
    } else {
      forall j | Min(p.j, rim) <= j <= Max(p.j, rim) ensures Pos(p.i, j) in side {
        SideToRim(path, up, nx, ny, p, q, p.i, j);
      }
      forall i | Min(p.i, q.i) <= i <= Max(p.i, q.i) ensures Pos(i, rim) in side {
        SideToRim(path, up, nx, ny, p, q, i, p.j);
      }
    }
  }

  lemma SameOwnSide(nx: nat, ny: nat, p1: Pos, p2: Pos, p: Pos, q: Pos)
    requires InCorners(nx, ny, p1) && InCorners(nx, ny, p2) && Crosses(nx, ny, p1, p2)
    requires InBox(nx, ny, p) && q in OwnSide(nx, ny, p1, p2, p)
    ensures InBox(nx, ny, q) && Beyond(nx, ny, p1, p2, q) == Beyond(nx, ny, p1, p2, p)
    ensures OwnSide(nx, ny, p1, p2, q) == OwnSide(nx, ny, p1, p2, p) && p in OwnSide(nx, ny, p1, p2, p)
  {
    hide Beyond;
  }

  lemma BackAlong(cells: set<Pos>, i: int, j1: int, j2: int)
    ensures ColumnIn(cells, i, j1, j2) == ColumnIn(cells, i, j2, j1)
    ensures RowIn(cells, i, j1, j2) == RowIn(cells, i, j2, j1)
  {
  }

  /** Each side of a crossing barrier is connected. */
  lemma OwnSideConnected(nx: nat, ny: nat, p1: Pos, p2: Pos, w: Walls, p: Pos, q: Pos)
    requires InCorners(nx, ny, p1) && InCorners(nx, ny, p2) && Crosses(nx, ny, p1, p2)
    requires InBox(nx, ny, p) && q in OwnSide(nx, ny, p1, p2, p) && Whole(w, OwnSide(nx, ny, p1, p2, p))
    ensures Connected(w, OwnSide(nx, ny, p1, p2, p), p, q)
  {
    hide OwnSide, Beyond, ColumnIn, RowIn, Whole, Connected, Rim, ReadTurned, Crosses;
    SameOwnSide(nx, ny, p1, p2, p, q);
    OwnSideToRim(nx, ny, p1, p2, p, q);
    OwnSideToRim(nx, ny, p1, p2, q, p);
    var side, rim := OwnSide(nx, ny, p1, p2, p), Rim(nx, ny, p1, p2, Beyond(nx, ny, p1, p2, p));
    if ReadTurned(nx, p1, p2) {
      BackAlong(side, q.j, q.i, rim);
      ByColumn(w, side, p, q, rim);
    } else {
      BackAlong(side, q.i, q.j, rim);
      ByRow(w, side, p, q, rim);
    }
  }

  /** A layer of one value in which all adjacent cells are in contact. */
  ghost predicate Open(s: Slice, org: int)
    requires s.Wf()
  {
    && (forall p :: p in s.Values() ==> s.Values()[p] == org)
    && Whole(s.Barriers(), Box(s.nx, s.ny))
  }

  lemma OwnSideIsWhole(s: Slice, p1: Pos, p2: Pos, p: Pos)
    requires s.Wf() && InCorners(s.nx, s.ny, p1) && InCorners(s.nx, s.ny, p2) && Crosses(s.nx, s.ny, p1, p2)
    requires InBox(s.nx, s.ny, p) && Whole(s.Barriers(), Box(s.nx, s.ny))
    ensures Whole(WithBarrier(s, p1, p2).Barriers(), OwnSide(s.nx, s.ny, p1, p2, p))
  {
    var side, w := OwnSide(s.nx, s.ny, p1, p2, p), WithBarrier(s, p1, p2).Barriers();
    hide Beyond, BarrierWalls, WithWalls, Slice.Barriers, Linked, Adjacent, Crosses;
    forall a, b | a in side && b in side && Adjacent(a, b) ensures Linked(w, a, b) {
      ContactAfterBarrier(s, p1, p2, a, b);
    }
  }

  /**
   * After a barrier from one side of an open layer to the opposite side, recolouring connected cells recolours
   * exactly the cells on the same side of the barrier.
   */
  lemma FillTakesOwnSide(s: Slice, p1: Pos, p2: Pos, p: Pos, q: Pos, org: int, colour: int)
    requires s.Wf() && InCorners(s.nx, s.ny, p1) && InCorners(s.nx, s.ny, p2) && Crosses(s.nx, s.ny, p1, p2)
    requires InBox(s.nx, s.ny, p) && InBox(s.nx, s.ny, q) && Open(s, org)
    ensures
      var t := WithBarrier(s, p1, p2);
      Recoloured(t.Values(), t.Barriers(), p, org, colour)[q] ==
        if Beyond(s.nx, s.ny, p1, p2, q) == Beyond(s.nx, s.ny, p1, p2, p) then colour else org
  {
    if Beyond(s.nx, s.ny, p1, p2, q) == Beyond(s.nx, s.ny, p1, p2, p) {
      var t := WithBarrier(s, p1, p2);
      var side, w, region := OwnSide(s.nx, s.ny, p1, p2, p), t.Barriers(), Region(t.Values(), org);
      hide Beyond, BarrierWalls, WithWalls, WithBarrier, Slice.Barriers, Linked, Adjacent, Crosses, Connected, Whole;
      OwnSideIsWhole(s, p1, p2, p);
      OwnSideConnected(s.nx, s.ny, p1, p2, w, p, q);
      ConnectedMono(w, side, region, p, q);
    } else {
      BarrierSeparates(s, p1, p2, p, q, org, colour);
    }
  }

  /** A new layer is open. */
  lemma NewLayerIsOpen(nx: nat, ny: nat)
    ensures Open(BlankSlice(nx, ny), 0)
  {
    assert BlankSlice(nx, ny).Barriers() == NO_WALLS;
  }

  /** For a straight barrier across a new layer: the fill recolours the rows, or the columns, on its own side. */
  lemma StraightBarrierFill(nx: nat, ny: nat, h: int, upright: bool, p: Pos, q: Pos, colour: int)
    requires InBox(nx, ny, p) && InBox(nx, ny, q) && 0 <= h <= if upright then nx else ny
    ensures
      var p1, p2 := if upright then Pos(h, 0) else Pos(0, h), if upright then Pos(h, ny) else Pos(nx, h);
      var t := WithBarrier(BlankSlice(nx, ny), p1, p2);
      Recoloured(t.Values(), t.Barriers(), p, 0, colour)[q] ==
        if (if upright then (p.i < h) == (q.i < h) else (p.j < h) == (q.j < h)) then colour else 0
  {
    var p1, p2 := if upright then Pos(h, 0) else Pos(0, h), if upright then Pos(h, ny) else Pos(nx, h);
    NewLayerIsOpen(nx, ny);
    SidesOfBarrier(nx, ny, p1, p2, p);
    SidesOfBarrier(nx, ny, p1, p2, q);
    hide Beyond, Open, WithBarrier;
    FillTakesOwnSide(BlankSlice(nx, ny), p1, p2, p, q, 0, colour);
  }
}
