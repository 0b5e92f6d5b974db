/** Finding the cell of a slice that holds a point, by halving the slice. */
module PointLocation {
  import opened Cells
  import opened Polygons

  /** The position of every cell corner of a slice. */
  type Corners = Pos -> Point

  /** The corners along a line, upwards from `a` to just before `b`, and downwards from `b` to just after `a`. */
  ghost function Upwards(line: int -> Point, a: int, b: int): seq<Point>
    decreases b - a
  {
    if a >= b then [] else [line(a)] + Upwards(line, a + 1, b)
  }

  ghost function Downwards(line: int -> Point, a: int, b: int): seq<Point>
    decreases b - a
  {
    if a >= b then [] else [line(b)] + Downwards(line, a, b - 1)
  }

  /** An odd number of crossings with the segments of a line between `a` and `b`. */
  ghost function LineParity(line: int -> Point, a: int, b: int, p: Point): bool
    decreases b - a
  {
    if a >= b then false else Crosses(line(a), line(a + 1), p) != LineParity(line, a + 1, b, p)
  }

  /** The point lies on one of the segments of a line between `a` and `b`. */
  ghost predicate OnLine(line: int -> Point, a: int, b: int, p: Point)
    decreases b - a
  {
    a < b && (OnEdge(line(a), line(a + 1), p) || OnLine(line, a + 1, b, p))
  }

  lemma {:induction false} LineSplits(line: int -> Point, a: int, c: int, b: int, p: Point)
    requires a <= c <= b
    ensures LineParity(line, a, b, p) == (LineParity(line, a, c, p) != LineParity(line, c, b, p))
    ensures OnLine(line, a, b, p) <==> OnLine(line, a, c, p) || OnLine(line, c, b, p)
    decreases c - a
  {
    hide Crosses, OnEdge;
    if a < c { LineSplits(line, a + 1, c, b, p); }
  }

  /** The chain that follows a line upwards and then goes on. */
  lemma {:induction false} UpwardsChain(line: int -> Point, a: int, b: int, rest: seq<Point>, p: Point)
    requires a <= b && rest != [] && rest[0] == line(b)
    ensures
      var chain := Upwards(line, a, b) + rest;
      && chain[0] == line(a)
      && ChainParity(chain, p) == (LineParity(line, a, b, p) != ChainParity(rest, p))
      && (OnChain(chain, p) <==> OnLine(line, a, b, p) || OnChain(rest, p))
    decreases b - a
  {
    hide Crosses, OnEdge;
    var chain := Upwards(line, a, b) + rest;
    if a < b {
      UpwardsChain(line, a + 1, b, rest, p);
      assert chain[1..] == Upwards(line, a + 1, b) + rest;
    } else {
      assert chain == rest;
    }
  }

  /** The chain that follows a line downwards meets the same segments. */
  lemma {:induction false} DownwardsChain(line: int -> Point, a: int, b: int, rest: seq<Point>, p: Point)
    requires a <= b && rest != [] && rest[0] == line(a)
    ensures
      var chain := Downwards(line, a, b) + rest;
      && chain[0] == line(b)
      && ChainParity(chain, p) == (LineParity(line, a, b, p) != ChainParity(rest, p))
      && (OnChain(chain, p) <==> OnLine(line, a, b, p) || OnChain(rest, p))
    decreases b - a
  {
    hide Crosses, OnEdge;
    var chain := Downwards(line, a, b) + rest;
    if a < b {
      DownwardsChain(line, a, b - 1, rest, p);
      assert chain[1..] == Downwards(line, a, b - 1) + rest;
      SegmentSymmetric(line(b), line(b - 1), p);
      LineSplits(line, a, b - 1, b, p);
      OneSegment(line, b - 1, p);
    } else {
      assert chain == rest;
    }
  }

  lemma OneSegment(line: int -> Point, a: int, p: Point)
    ensures LineParity(line, a, a + 1, p) == Crosses(line(a), line(a + 1), p)
    ensures OnLine(line, a, a + 1, p) == OnEdge(line(a), line(a + 1), p)
  {
    hide Crosses, OnEdge;
  }

  ghost function Row(corner: Corners, j: int): int -> Point { i => corner(Pos(i, j)) }

  ghost function Column(corner: Corners, i: int): int -> Point { j => corner(Pos(i, j)) }

  /** The outline of the cells from column i1 to i2 and row j1 to j2, closed by its first corner. */
  ghost function Outline(corner: Corners, i1: int, i2: int, j1: int, j2: int): seq<Point> {
    Upwards(Row(corner, j1), i1, i2) + (Upwards(Column(corner, i2), j1, j2)
    + (Downwards(Row(corner, j2), i1, i2) + (Downwards(Column(corner, i1), j1, j2) + [corner(Pos(i1, j1))])))
  }

  /** An odd number of crossings with the outline, side by side. */
  ghost predicate BoxParity(corner: Corners, i1: int, i2: int, j1: int, j2: int, p: Point) {
    LineParity(Row(corner, j1), i1, i2, p) != (LineParity(Column(corner, i2), j1, j2, p)
    != (LineParity(Row(corner, j2), i1, i2, p) != LineParity(Column(corner, i1), j1, j2, p)))
  }

  ghost predicate OnOutline(corner: Corners, i1: int, i2: int, j1: int, j2: int, p: Point) {
    || OnLine(Row(corner, j1), i1, i2, p) || OnLine(Column(corner, i2), j1, j2, p)
    || OnLine(Row(corner, j2), i1, i2, p) || OnLine(Column(corner, i1), j1, j2, p)
  }

  /** The cells from column i1 to i2 and row j1 to j2 hold the point. */
  ghost predicate BoxHolds(corner: Corners, i1: int, i2: int, j1: int, j2: int, p: Point) {
    OnOutline(corner, i1, i2, j1, j2, p) || BoxParity(corner, i1, i2, j1, j2, p)
  }

  /** The test of the outline polygon is the test of its four sides. */
  lemma OutlineTest(corner: Corners, i1: int, i2: int, j1: int, j2: int, p: Point)
    requires i1 <= i2 && j1 <= j2 && (i1 < i2 || j1 < j2)
    ensures Inside(Outline(corner, i1, i2, j1, j2), p, true) == BoxHolds(corner, i1, i2, j1, j2, p)
  {
    hide Inside, OnEdge, Crosses, LineParity, OnLine;
    var end := [corner(Pos(i1, j1))];
    var left := Downwards(Column(corner, i1), j1, j2) + end;
    var top := Downwards(Row(corner, j2), i1, i2) + left;
    var right := Upwards(Column(corner, i2), j1, j2) + top;
    DownwardsChain(Column(corner, i1), j1, j2, end, p);
    DownwardsChain(Row(corner, j2), i1, i2, left, p);
    UpwardsChain(Column(corner, i2), j1, j2, top, p);
    UpwardsChain(Row(corner, j1), i1, i2, right, p);
    ClosedInside(Outline(corner, i1, i2, j1, j2), p);
  }

  /** Halving a box along its columns: the parities of the halves add up, as the common chord is met twice. */
  lemma HalvesOfColumns(corner: Corners, i1: int, ic: int, i2: int, j1: int, j2: int, p: Point)
    requires i1 <= ic <= i2
    ensures BoxParity(corner, i1, i2, j1, j2, p) ==
            (BoxParity(corner, i1, ic, j1, j2, p) != BoxParity(corner, ic, i2, j1, j2, p))
    ensures OnOutline(corner, i1, i2, j1, j2, p) ==>
            OnOutline(corner, i1, ic, j1, j2, p) || OnOutline(corner, ic, i2, j1, j2, p)
    ensures BoxHolds(corner, i1, i2, j1, j2, p) ==>
            BoxHolds(corner, i1, ic, j1, j2, p) || BoxHolds(corner, ic, i2, j1, j2, p)
  {
    hide LineParity, OnLine;
    LineSplits(Row(corner, j1), i1, ic, i2, p);
    LineSplits(Row(corner, j2), i1, ic, i2, p);
  }

  /** Halving a box along its rows. */
  lemma HalvesOfRows(corner: Corners, i1: int, i2: int, j1: int, jc: int, j2: int, p: Point)
    requires j1 <= jc <= j2
    ensures BoxParity(corner, i1, i2, j1, j2, p) ==
            (BoxParity(corner, i1, i2, j1, jc, p) != BoxParity(corner, i1, i2, jc, j2, p))
    ensures OnOutline(corner, i1, i2, j1, j2, p) ==>
            OnOutline(corner, i1, i2, j1, jc, p) || OnOutline(corner, i1, i2, jc, j2, p)
    ensures BoxHolds(corner, i1, i2, j1, j2, p) ==>
            BoxHolds(corner, i1, i2, j1, jc, p) || BoxHolds(corner, i1, i2, jc, j2, p)
  {
    hide LineParity, OnLine;
    LineSplits(Column(corner, i1), j1, jc, j2, p);
    LineSplits(Column(corner, i2), j1, jc, j2, p);
  }

  ghost predicate CellHolds(corner: Corners, i: int, j: int, p: Point) {
    BoxHolds(corner, i, i + 1, j, j + 1, p)
  }

  /** An odd number of the cells in columns i1 to i2 of row j, and in rows j1 to j2, have an odd crossing number. */
  ghost predicate OddInRow(corner: Corners, i1: int, i2: int, j: int, p: Point)
    decreases i2 - i1
  {
    i1 < i2 && BoxParity(corner, i1, i1 + 1, j, j + 1, p) != OddInRow(corner, i1 + 1, i2, j, p)
  }

  ghost predicate OddInBox(corner: Corners, i1: int, i2: int, j1: int, j2: int, p: Point)
    decreases j2 - j1
  {
    j1 < j2 && OddInRow(corner, i1, i2, j1, p) != OddInBox(corner, i1, i2, j1 + 1, j2, p)
  }

  lemma {:induction false} RowParityIsSum(corner: Corners, i1: int, i2: int, j: int, p: Point)
    requires i1 <= i2
    ensures BoxParity(corner, i1, i2, j, j + 1, p) == OddInRow(corner, i1, i2, j, p)
    decreases i2 - i1
  {
    if i1 < i2 {
      RowParityIsSum(corner, i1 + 1, i2, j, p);
      HalvesOfColumns(corner, i1, i1 + 1, i2, j, j + 1, p);
    }
  }

  /** The crossing parity of a box is the sum of those of its cells, whatever shape the cells have. */
  lemma {:induction false} BoxParityIsSum(corner: Corners, i1: int, i2: int, j1: int, j2: int, p: Point)
    requires i1 <= i2 && j1 <= j2
    ensures BoxParity(corner, i1, i2, j1, j2, p) == OddInBox(corner, i1, i2, j1, j2, p)
    decreases j2 - j1
  {
    if j1 < j2 {
      BoxParityIsSum(corner, i1, i2, j1 + 1, j2, p);
      RowParityIsSum(corner, i1, i2, j1, p);
      HalvesOfRows(corner, i1, i2, j1, j1 + 1, j2, p);
    }
  }

  /** Adds the corners of a row from left to right, but for the last one. */
  method AddBottom(corner: Corners, i1: int, i2: int, j: int, polygon: Polygon)
    requires polygon.Valid() && i1 <= i2
    modifies polygon
    ensures polygon.Valid() && polygon.points == old(polygon.points) + Upwards(Row(corner, j), i1, i2)
  {
    hide Polygon.Valid;
    ghost var all := polygon.points + Upwards(Row(corner, j), i1, i2);
    for i := i1 to i2
      invariant polygon.Valid() && polygon.points + Upwards(Row(corner, j), i, i2) == all
    {
      var c := corner(Pos(i, j));
      polygon.AddPoint(c.x, c.y);
    }
  }

  /** Adds the corners of a column upwards, but for the last one. */
  method AddRight(corner: Corners, i: int, j1: int, j2: int, polygon: Polygon)
    requires polygon.Valid() && j1 <= j2
    modifies polygon
    ensures polygon.Valid() && polygon.points == old(polygon.points) + Upwards(Column(corner, i), j1, j2)
  {
    hide Polygon.Valid;
    ghost var all := polygon.points + Upwards(Column(corner, i), j1, j2);
    for j := j1 to j2
      invariant polygon.Valid() && polygon.points + Upwards(Column(corner, i), j, j2) == all
    {
      var c := corner(Pos(i, j));
      polygon.AddPoint(c.x, c.y);
    }
  }

  /** Adds the corners of a row from right to left, but for the last one. */
  method AddTop(corner: Corners, i1: int, i2: int, j: int, polygon: Polygon)
    requires polygon.Valid() && i1 <= i2
    modifies polygon
    ensures polygon.Valid() && polygon.points == old(polygon.points) + Downwards(Row(corner, j), i1, i2)
  {
    hide Polygon.Valid;
    ghost var all := polygon.points + Downwards(Row(corner, j), i1, i2);
    var i := i2;
    while i > i1
      invariant i1 <= i <= i2
      invariant polygon.Valid() && polygon.points + Downwards(Row(corner, j), i1, i) == all
    {
      var c := corner(Pos(i, j));
      polygon.AddPoint(c.x, c.y);
      i := i - 1;
    }
  }

  /** Adds the corners of a column downwards, but for the last one. */
  method AddLeft(corner: Corners, i: int, j1: int, j2: int, polygon: Polygon)
    requires polygon.Valid() && j1 <= j2
    modifies polygon
    ensures polygon.Valid() && polygon.points == old(polygon.points) + Downwards(Column(corner, i), j1, j2)
  {
    hide Polygon.Valid;
    ghost var all := polygon.points + Downwards(Column(corner, i), j1, j2);
    var j := j2;
    while j > j1
      invariant j1 <= j <= j2
      invariant polygon.Valid() && polygon.points + Downwards(Column(corner, i), j1, j) == all
    {
      var c := corner(Pos(i, j));
      polygon.AddPoint(c.x, c.y);
      j := j - 1;
    }
  }

  lemma ClosedSum(a: seq<Point>, b: seq<Point>, c: seq<Point>, d: seq<Point>, first: Point)
    requires a != [] ==> a[0] == first
    requires a == [] ==> b != [] && b[0] == first
    ensures
      var open_ := [] + a + b + c + d;
      open_ != [] && open_ + [open_[0]] == a + (b + (c + (d + [first])))
  {
    var open_ := [] + a + b + c + d;
    assert open_[0] == first;
  }

  lemma OutlineStart(corner: Corners, i1: int, i2: int, j1: int, j2: int)
    requires i1 <= i2 && j1 <= j2 && (i1 < i2 || j1 < j2)
    ensures
      var open_ := [] + Upwards(Row(corner, j1), i1, i2) + Upwards(Column(corner, i2), j1, j2)
                   + Downwards(Row(corner, j2), i1, i2) + Downwards(Column(corner, i1), j1, j2);
      open_ != [] && open_ + [open_[0]] == Outline(corner, i1, i2, j1, j2)
  {
    var a, b := Upwards(Row(corner, j1), i1, i2), Upwards(Column(corner, i2), j1, j2);
    var c, d := Downwards(Row(corner, j2), i1, i2), Downwards(Column(corner, i1), j1, j2);
    var first := corner(Pos(i1, j1));
    assert a != [] ==> a[0] == first;
    assert a == [] ==> b != [] && b[0] == first;
    assert Outline(corner, i1, i2, j1, j2) == a + (b + (c + (d + [first])));
    hide *;
    ClosedSum(a, b, c, d, first);
  }

  /** Fills a polygon with the outline of a box of cells and tests a point. */
  method SublayerContains(corner: Corners, i1: int, i2: int, j1: int, j2: int, x: real, y: real, polygon: Polygon)
    returns (inside: bool)
    requires i1 <= i2 && j1 <= j2 && (i1 < i2 || j1 < j2)
    modifies polygon
    ensures polygon.Valid() && inside == BoxHolds(corner, i1, i2, j1, j2, Point(x, y))
  {
    hide *;
    polygon.Reset();
    AddBottom(corner, i1, i2, j1, polygon);
    AddRight(corner, i2, j1, j2, polygon);
    AddTop(corner, i1, i2, j2, polygon);
    AddLeft(corner, i1, j1, j2, polygon);
    OutlineStart(corner, i1, i2, j1, j2);
    polygon.Close();
    OutlineTest(corner, i1, i2, j1, j2, Point(x, y));
    inside := polygon.Contains(x, y, true);
  }

  /**
   * Finds the cell that holds a point, if the slice as a whole holds it, by halving columns and rows in turn. The
   * point never gets lost between two halves, and the cell that is found holds it.
   */
  method GetIjFromXy(corner: Corners, nx: nat, ny: nat, x: real, y: real)
    returns (ok: bool, inside: bool, i: int, j: int)
    requires nx >= 1 && ny >= 1
    ensures ok
    ensures inside == BoxHolds(corner, 0, nx, 0, ny, Point(x, y))
    ensures inside ==> 0 <= i < nx && 0 <= j < ny && CellHolds(corner, i, j, Point(x, y))
  {
    hide *;
    ghost var p := Point(x, y);
    ok, i, j := true, -1, -1;
    var polygon := new Polygon();
    inside := SublayerContains(corner, 0, nx, 0, ny, x, y, polygon);
    if inside {
      var i1, i2, j1, j2 := 0, nx, 0, ny;
      while true
        invariant 0 <= i1 < i2 <= nx && 0 <= j1 < j2 <= ny
        invariant BoxHolds(corner, i1, i2, j1, j2, p)
        decreases i2 - i1 + j2 - j1
      {
        if i2 - i1 > 1 {
          var ic := (i1 + i2) / 2;
          HalvesOfColumns(corner, i1, ic, i2, j1, j2, p);
          var left := SublayerContains(corner, i1, ic, j1, j2, x, y, polygon);
          if left {
            i2 := ic;
          } else {
            var right := SublayerContains(corner, ic, i2, j1, j2, x, y, polygon);
            if !right { return false, inside, i, j; }
            i1 := ic;
          }
        }
        if j2 - j1 > 1 {
          var jc := (j1 + j2) / 2;
          HalvesOfRows(corner, i1, i2, j1, jc, j2, p);
          var lower := SublayerContains(corner, i1, i2, j1, jc, x, y, polygon);
          if lower {
            j2 := jc;
          } else {
            var upper := SublayerContains(corner, i1, i2, jc, j2, x, y, polygon);
            if !upper { return false, inside, i, j; }
            j1 := jc;
          }
        }
        if i2 - i1 == 1 && j2 - j1 == 1 {
          i, j := i1, j1;
          OneCell(corner, i1, i2, j1, j2, p);
          break;
        }
      }
    }
  }

  lemma OneCell(corner: Corners, i1: int, i2: int, j1: int, j2: int, p: Point)
    requires i2 == i1 + 1 && j2 == j1 + 1
    ensures CellHolds(corner, i1, j1, p) == BoxHolds(corner, i1, i2, j1, j2, p)
  {
  }

  ghost predicate RowHolds(corner: Corners, nx: nat, j: int, p: Point) {
    BoxHolds(corner, 0, nx, j, j + 1, p)
  }

  /** A point that no cell of the slice holds is not found: it is outside of the slice as a whole. */
  lemma HeldByNoCell(corner: Corners, nx: nat, ny: nat, p: Point)
    requires nx >= 1 && ny >= 1
    requires forall i, j :: 0 <= i < nx && 0 <= j < ny ==> !CellHolds(corner, i, j, p)
    ensures !BoxHolds(corner, 0, nx, 0, ny, p)
  {
    hide BoxHolds;
    forall j | 0 <= j < ny ensures !RowHolds(corner, nx, j, p) {
      RowHeldByNoCell(corner, nx, j, nx, p);
    }
    RowsHoldNothing(corner, nx, ny, p);
  }

  lemma {:induction false} RowHeldByNoCell(corner: Corners, nx: nat, j: int, n: nat, p: Point)
    requires 1 <= n <= nx && forall i :: 0 <= i < nx ==> !CellHolds(corner, i, j, p)
    ensures !BoxHolds(corner, 0, n, j, j + 1, p)
  {
    hide BoxHolds;
    assert !CellHolds(corner, n - 1, j, p);
    if n > 1 {
      RowHeldByNoCell(corner, nx, j, n - 1, p);
      HalvesOfColumns(corner, 0, n - 1, n, j, j + 1, p);
    }
  }

  lemma {:induction false} RowsHoldNothing(corner: Corners, nx: nat, n: nat, p: Point)
    requires n >= 1 && forall j :: 0 <= j < n ==> !RowHolds(corner, nx, j, p)
    ensures !BoxHolds(corner, 0, nx, 0, n, p)
  {
    hide BoxHolds;
    assert !RowHolds(corner, nx, n - 1, p);
    if n > 1 {
      RowsHoldNothing(corner, nx, n - 1, p);
      HalvesOfRows(corner, 0, nx, 0, n - 1, n, p);
    }
  }
}
