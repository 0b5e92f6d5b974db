/**
 * What the crossing test says of a cell with convex corners: that the point lies on no outer side of its four lines.
 */
module ConvexCells {
  import opened Cells
  import opened Polygons
  import opened PointLocation

  /** Twice the area of a triangle, positive if its corners are named counterclockwise. */
  function Turn(a: Point, b: Point, c: Point): real {
    (b.x - a.x) * (c.y - a.y) - (b.y - a.y) * (c.x - a.x)
  }

  /** Four corners, each of them a turn to the left. */
  predicate Convex(a: Point, b: Point, c: Point, d: Point) {
    Turn(a, b, c) > 0.0 && Turn(b, c, d) > 0.0 && Turn(c, d, a) > 0.0 && Turn(d, a, b) > 0.0
  }

  /** The point lies on no outer side of the lines through four corners named counterclockwise. */
  predicate WithinLines(a: Point, b: Point, c: Point, d: Point, p: Point) {
    Turn(a, b, p) >= 0.0 && Turn(b, c, p) >= 0.0 && Turn(c, d, p) >= 0.0 && Turn(d, a, p) >= 0.0
  }

  /** The test of the four sides: on one of them, or crossed an odd number of times. */
  predicate OnSides(a: Point, b: Point, c: Point, d: Point, p: Point) {
    OnEdge(a, b, p) || OnEdge(b, c, p) || OnEdge(c, d, p) || OnEdge(d, a, p)
  }

  predicate OddCrossings(a: Point, b: Point, c: Point, d: Point, p: Point) {
    (Crosses(a, b, p) != Crosses(b, c, p)) != (Crosses(c, d, p) != Crosses(d, a, p))
  }

  lemma TurnsAgree(a: Point, b: Point, c: Point)
    ensures Turn(a, b, c) == Turn(b, c, a) == Turn(c, a, b)
    ensures Turn(b, a, c) == -Turn(a, b, c)
    ensures Turn(a, b, a) == 0.0 && Turn(a, b, b) == 0.0
  {
  }

  /** Along a segment the turn changes evenly. */
  lemma TurnAlong(a: Point, b: Point, c: Point, d: Point, t: real)
    ensures Turn(a, b, Between(c, d, t)) == Turn(a, b, c) + t * (Turn(a, b, d) - Turn(a, b, c))
  {
    var x, y := b.x - a.x, b.y - a.y;
    assert x * (c.y + t * (d.y - c.y) - a.y) == x * (c.y - a.y) + t * (x * (d.y - a.y) - x * (c.y - a.y));
    assert y * (c.x + t * (d.x - c.x) - a.x) == y * (c.x - a.x) + t * (y * (d.x - a.x) - y * (c.x - a.x));
  }

  lemma Mixed(t: real, m: real, n: real)
    requires 0.0 <= t <= 1.0 && m >= 0.0 && n >= 0.0
    ensures m + t * (n - m) >= 0.0
  {
    assert t * n >= 0.0;
    assert (1.0 - t) * m >= 0.0;
    assert m + t * (n - m) == (1.0 - t) * m + t * n;
  }

  /** Between two points within the lines all points are. */
  lemma SegmentWithin(a: Point, b: Point, c: Point, d: Point, u: Point, v: Point, t: real)
    requires 0.0 <= t <= 1.0 && WithinLines(a, b, c, d, u) && WithinLines(a, b, c, d, v)
    ensures WithinLines(a, b, c, d, Between(u, v, t))
  {
    TurnAlong(a, b, u, v, t);
    TurnAlong(b, c, u, v, t);
    TurnAlong(c, d, u, v, t);
    TurnAlong(d, a, u, v, t);
    hide Turn, Between;
    Mixed(t, Turn(a, b, u), Turn(a, b, v));
    Mixed(t, Turn(b, c, u), Turn(b, c, v));
    Mixed(t, Turn(c, d, u), Turn(c, d, v));
    Mixed(t, Turn(d, a, u), Turn(d, a, v));
  }

  lemma CornersWithin(a: Point, b: Point, c: Point, d: Point)
    requires Convex(a, b, c, d)
    ensures WithinLines(a, b, c, d, a) && WithinLines(a, b, c, d, b)
    ensures WithinLines(a, b, c, d, c) && WithinLines(a, b, c, d, d)
  {
    TurnsAgree(a, b, c);
    TurnsAgree(b, c, d);
    TurnsAgree(c, d, a);
    TurnsAgree(d, a, b);
    hide Turn;
  }

  /** The sides lie within the lines. */
  lemma SidesWithin(a: Point, b: Point, c: Point, d: Point, p: Point)
    requires Convex(a, b, c, d) && OnSides(a, b, c, d, p)
    ensures WithinLines(a, b, c, d, p)
  {
    CornersWithin(a, b, c, d);
    hide Convex, WithinLines, OnEdge, Between;
    if OnEdge(a, b, p) { EdgeWithin(a, b, c, d, a, b, p); }
    else if OnEdge(b, c, p) { EdgeWithin(a, b, c, d, b, c, p); }
    else if OnEdge(c, d, p) { EdgeWithin(a, b, c, d, c, d, p); }
    else { EdgeWithin(a, b, c, d, d, a, p); }
  }

  lemma EdgeWithin(a: Point, b: Point, c: Point, d: Point, u: Point, v: Point, p: Point)
    requires WithinLines(a, b, c, d, u) && WithinLines(a, b, c, d, v) && OnEdge(u, v, p)
    ensures WithinLines(a, b, c, d, p)
  {
    hide WithinLines, Between, OnEdge;
    var t := RatioOf(u, v, p);
    SegmentWithin(a, b, c, d, u, v, t);
  }

  /** The turn towards a point at the height of a point of the segment. */
  lemma TurnBeside(a: Point, b: Point, p: Point, t: real)
    requires Between(a, b, t).y == p.y
    ensures Turn(a, b, p) == (b.y - a.y) * (Between(a, b, t).x - p.x)
  {
    var x, y := b.x - a.x, b.y - a.y;
    assert x * (t * y) == y * (t * x);
  }

  lemma ProductSign(h: real, z: real)
    ensures h > 0.0 ==> (h * z >= 0.0 <==> z >= 0.0)
    ensures h < 0.0 ==> (h * z >= 0.0 <==> z <= 0.0)
  {
  }

  /** Where a side that passes the height of a point meets it, and what the crossing test and the turn then say. */
  lemma Passes(a: Point, b: Point, p: Point) returns (t: real)
    requires (a.y < p.y) != (b.y < p.y)
    ensures 0.0 <= t <= 1.0 && Between(a, b, t).y == p.y
    ensures Crosses(a, b, p) <==> p.x <= Between(a, b, t).x
    ensures a.y < b.y ==> (Turn(a, b, p) >= 0.0 <==> p.x <= Between(a, b, t).x)
    ensures b.y < a.y ==> (Turn(a, b, p) >= 0.0 <==> p.x >= Between(a, b, t).x)
  {
    hide Crosses, Turn;
    t := RatioInRange(a.y, b.y, p.y);
    CrossesMeaning(a, b, p);
    TurnBeside(a, b, p, t);
    ProductSign(b.y - a.y, Between(a, b, t).x - p.x);
    forall u: real | Between(a, b, u).y == p.y ensures u == t {
      RatioIsUnique(a, b, u, t);
    }
  }

  lemma DoesNotPass(a: Point, b: Point, p: Point)
    requires (a.y < p.y) == (b.y < p.y)
    ensures !Crosses(a, b, p)
  {
  }

  /** A point on a level line between two points within the lines. */
  lemma ChordWithin(a: Point, b: Point, c: Point, d: Point, u: Point, v: Point, p: Point)
    requires WithinLines(a, b, c, d, u) && WithinLines(a, b, c, d, v)
    requires u.y == p.y == v.y && u.x <= p.x <= v.x
    ensures WithinLines(a, b, c, d, p)
  {
    hide WithinLines;
    if u.x == v.x {
      assert p == u;
    } else {
      var t := RatioInRange(u.x, v.x, p.x);
      assert Between(u, v, t) == p;
      SegmentWithin(a, b, c, d, u, v, t);
    }
  }

  /** With one side that goes up through the height of the point, and one that goes down, the others not passing it. */
  lemma UpAndDown(a: Point, b: Point, c: Point, d: Point, u: Point, v: Point, p: Point)
    requires Convex(a, b, c, d) && a.y < p.y <= b.y && v.y < p.y <= u.y
    requires (u == b && v == c) || (u == c && v == d) || (u == d && v == a)
    ensures Crosses(a, b, p) != Crosses(u, v, p) ==> WithinLines(a, b, c, d, p)
    ensures WithinLines(a, b, c, d, p) ==> Crosses(a, b, p) != Crosses(u, v, p) || OnEdge(u, v, p)
  {
    CornersWithin(a, b, c, d);
    hide Crosses, OnEdge, Between, Convex, Turn;
    var s := Passes(a, b, p);
    var t := Passes(u, v, p);
    var right, left := Between(a, b, s), Between(u, v, t);
    OnEdgeMeaning(u, v, p);
    hide WithinLines;
    SegmentWithin(a, b, c, d, a, b, s);
    SegmentWithin(a, b, c, d, u, v, t);
    WithinFirst(a, b, c, d, left);
    var s' := Passes(a, b, left);
    SameRatio(a, b, s, s');
    if left.x <= p.x <= right.x { ChordWithin(a, b, c, d, left, right, p); }
    if WithinLines(a, b, c, d, p) {
      WithinFirst(a, b, c, d, p);
      WithinSide(a, b, c, d, u, v, p);
      if p.x == left.x { assert p == left; }
    }
  }

  lemma WithinFirst(a: Point, b: Point, c: Point, d: Point, p: Point)
    requires WithinLines(a, b, c, d, p)
    ensures Turn(a, b, p) >= 0.0
  {
  }

  lemma WithinSide(a: Point, b: Point, c: Point, d: Point, u: Point, v: Point, p: Point)
    requires WithinLines(a, b, c, d, p)
    requires (u == b && v == c) || (u == c && v == d) || (u == d && v == a)
    ensures Turn(u, v, p) >= 0.0
  {
  }

  lemma SameRatio(a: Point, b: Point, s: real, t: real)
    requires a.y != b.y && Between(a, b, s).y == Between(a, b, t).y
    ensures s == t
  {
    RatioIsUnique(a, b, s, t);
  }

  /** The two diagonals of a convex cell share a point, so neither lies wholly above the other. */
  lemma DiagonalsMeet(a: Point, b: Point, c: Point, d: Point, y: real)
    requires Convex(a, b, c, d)
    ensures !(a.y < y && c.y < y && b.y >= y && d.y >= y)
  {
    FourCorners(a, b, c, d, y);
    var m, n := Turn(b, c, d), Turn(d, a, b);
    var k, l := Turn(c, d, a), Turn(a, b, c);
    hide Turn;
    if a.y < y && c.y < y && b.y >= y && d.y >= y {
      ProductSign(m, a.y - y);
      ProductSign(n, c.y - y);
      ProductSign(k, b.y - y);
      ProductSign(l, d.y - y);
    }
  }

  lemma FourCorners(a: Point, b: Point, c: Point, d: Point, y: real)
    ensures Turn(b, c, d) * (a.y - y) + Turn(d, a, b) * (c.y - y) ==
            Turn(c, d, a) * (b.y - y) + Turn(a, b, c) * (d.y - y)
  {
  }

  /** Where one side goes up through the height of the point, exactly one goes down. */
  lemma HoldsAtUp(a: Point, b: Point, c: Point, d: Point, p: Point)
    requires Convex(a, b, c, d) && a.y < p.y <= b.y
    ensures OnSides(a, b, c, d, p) || OddCrossings(a, b, c, d, p) <==> WithinLines(a, b, c, d, p)
  {
    if OnSides(a, b, c, d, p) { SidesWithin(a, b, c, d, p); }
    DiagonalsMeet(a, b, c, d, p.y);
    hide Crosses, OnEdge, Convex, WithinLines;
    if c.y < p.y {
      UpAndDown(a, b, c, d, b, c, p);
      DoesNotPass(c, d, p);
      DoesNotPass(d, a, p);
    } else if d.y < p.y {
      UpAndDown(a, b, c, d, c, d, p);
      DoesNotPass(b, c, p);
      DoesNotPass(d, a, p);
    } else {
      UpAndDown(a, b, c, d, d, a, p);
      DoesNotPass(b, c, p);
      DoesNotPass(c, d, p);
    }
  }

  /** A point as a mixture of the corners of a triangle. */
  lemma Mixture(a: Point, b: Point, c: Point, p: Point)
    ensures Turn(b, c, p) + Turn(c, a, p) + Turn(a, b, p) == Turn(a, b, c)
    ensures Turn(b, c, p) * (a.y - p.y) + Turn(c, a, p) * (b.y - p.y) + Turn(a, b, p) * (c.y - p.y) == 0.0
    ensures Turn(b, c, p) * (a.x - p.x) + Turn(c, a, p) * (b.x - p.x) + Turn(a, b, p) * (c.x - p.x) == 0.0
  {
  }

  /** If the share of one corner is nothing, the point lies on the opposite side. */
  lemma MixtureOfTwo(a: Point, b: Point, m: real, n: real, p: Point)
    requires m >= 0.0 && n >= 0.0 && m + n > 0.0
    requires m * (a.y - p.y) + n * (b.y - p.y) == 0.0 && m * (a.x - p.x) + n * (b.x - p.x) == 0.0
    ensures OnEdge(a, b, p)
  {
    hide OnEdge;
    var t := RatioOfShares(m, n);
    SplitShare(a.x, b.x, p.x, m, n, t);
    SplitShare(a.y, b.y, p.y, m, n, t);
    assert Between(a, b, t) == p;
    OnEdgeMeaning(a, b, p);
  }

  lemma RatioOfShares(m: real, n: real) returns (t: real)
    requires m >= 0.0 && n >= 0.0 && m + n > 0.0
    ensures 0.0 <= t <= 1.0 && t * (m + n) == n
  {
    t := n / (m + n);
    Share(n, m + n);
    Signs(t, m + n);
    assert (1.0 - t) * (m + n) == m;
    Signs(1.0 - t, m + n);
  }

  lemma SplitShare(x: real, y: real, z: real, m: real, n: real, t: real)
    requires m + n > 0.0 && t * (m + n) == n && m * (x - z) + n * (y - z) == 0.0
    ensures x + t * (y - x) == z
  {
    var s := m + n;
    assert n * (y - x) == s * (z - x);
    assert (t * (y - x)) * s == (t * s) * (y - x);
    Cancel(t * (y - x), z - x, s);
  }

  lemma ZeroProduct(m: real, z: real)
    requires m > 0.0 && m * z == 0.0
    ensures z == 0.0
  {
  }

  /** Shares that are not negative, of heights on one side of zero, which add up to zero: each product is zero. */
  lemma NoShare(k: real, l: real, m: real, x: real, y: real, z: real)
    requires k >= 0.0 && l >= 0.0 && m >= 0.0 && k * x + l * y + m * z == 0.0
    requires (x >= 0.0 && y >= 0.0 && z >= 0.0) || (x <= 0.0 && y <= 0.0 && z <= 0.0)
    ensures (k == 0.0 || x == 0.0) && (l == 0.0 || y == 0.0) && (m == 0.0 || z == 0.0)
  {
    OneSign(k, x);
    OneSign(l, y);
    OneSign(m, z);
    if k > 0.0 { ZeroProduct(k, x); }
    if l > 0.0 { ZeroProduct(l, y); }
    if m > 0.0 { ZeroProduct(m, z); }
  }

  lemma OneSign(k: real, x: real)
    requires k >= 0.0
    ensures x >= 0.0 ==> k * x >= 0.0
    ensures x <= 0.0 ==> k * x <= 0.0
  {
  }

  /**
   * A point within the lines at or beyond the lowest or highest corner lies on a side; here on its triangle `a`, `b`,
   * `c`.
   */
  lemma LevelTriangle(a: Point, b: Point, c: Point, d: Point, p: Point)
    requires Convex(a, b, c, d) && WithinLines(a, b, c, d, p) && Turn(c, a, p) >= 0.0
    requires (a.y < p.y && b.y < p.y && c.y < p.y && d.y < p.y)
             || (a.y >= p.y && b.y >= p.y && c.y >= p.y && d.y >= p.y)
    ensures OnSides(a, b, c, d, p)
  {
    Mixture(a, b, c, p);
    var k, l, m := Turn(b, c, p), Turn(c, a, p), Turn(a, b, p);
    FlatTriangle(a, b, c);
    LevelDiagonal(a, b, c, d);
    TurnsAgree(c, d, a);
    hide Turn, OnEdge;
    NoShare(k, l, m, a.y - p.y, b.y - p.y, c.y - p.y);
    if m == 0.0 {
      MixtureOfTwo(a, b, k, l, p);
    } else if k == 0.0 {
      MixtureOfTwo(b, c, l, m, p);
    }
  }

  lemma FlatTriangle(a: Point, b: Point, c: Point)
    ensures a.y == b.y == c.y ==> Turn(a, b, c) == 0.0
  {
  }

  /** The corners on the two sides of a level diagonal are not both above it, nor both below it. */
  lemma LevelDiagonal(a: Point, b: Point, c: Point, d: Point)
    requires Turn(a, b, c) > 0.0 && Turn(c, d, a) > 0.0
    ensures !(a.y == c.y && b.y >= a.y && d.y >= a.y)
  {
    if a.y == c.y {
      assert Turn(a, b, c) == (a.x - c.x) * (b.y - a.y);
      assert Turn(c, d, a) == (c.x - a.x) * (d.y - a.y);
      ProductSign(a.x - c.x, b.y - a.y);
      ProductSign(c.x - a.x, d.y - a.y);
    }
  }

  lemma Rotated(a: Point, b: Point, c: Point, d: Point, p: Point)
    ensures Convex(a, b, c, d) == Convex(b, c, d, a)
    ensures WithinLines(a, b, c, d, p) == WithinLines(b, c, d, a, p)
    ensures OnSides(a, b, c, d, p) == OnSides(b, c, d, a, p)
    ensures OddCrossings(a, b, c, d, p) == OddCrossings(b, c, d, a, p)
  {
    hide Turn, Crosses, OnEdge;
  }

  /** Where no side passes the height of the point, there are no crossings, and the point may only lie on a side. */
  lemma HoldsAtLevel(a: Point, b: Point, c: Point, d: Point, p: Point)
    requires Convex(a, b, c, d)
    requires (a.y < p.y && b.y < p.y && c.y < p.y && d.y < p.y)
             || (a.y >= p.y && b.y >= p.y && c.y >= p.y && d.y >= p.y)
    ensures OnSides(a, b, c, d, p) || OddCrossings(a, b, c, d, p) <==> WithinLines(a, b, c, d, p)
  {
    if OnSides(a, b, c, d, p) { SidesWithin(a, b, c, d, p); }
    DoesNotPass(a, b, p);
    DoesNotPass(b, c, p);
    DoesNotPass(c, d, p);
    DoesNotPass(d, a, p);
    TurnsAgree(a, c, p);
    Rotated(a, b, c, d, p);
    Rotated(b, c, d, a, p);
    hide Crosses, OnEdge, Convex, Turn, OnSides, WithinLines;
    if WithinLines(a, b, c, d, p) {
      TurnsAgree(c, a, p);
      if Turn(c, a, p) >= 0.0 { LevelTriangle(a, b, c, d, p); } else { LevelTriangle(c, d, a, b, p); }
    }
  }

  /** Four corners in convex position, counterclockwise: the test holds just when the point lies within the lines. */
  lemma ConvexHolds(a: Point, b: Point, c: Point, d: Point, p: Point)
    requires Convex(a, b, c, d)
    ensures OnSides(a, b, c, d, p) || OddCrossings(a, b, c, d, p) <==> WithinLines(a, b, c, d, p)
  {
    Rotated(a, b, c, d, p);
    Rotated(b, c, d, a, p);
    Rotated(c, d, a, b, p);
    hide Convex, WithinLines, OnSides, OddCrossings;
    if a.y < p.y <= b.y { HoldsAtUp(a, b, c, d, p); }
    else if b.y < p.y <= c.y { HoldsAtUp(b, c, d, a, p); }
    else if c.y < p.y <= d.y { HoldsAtUp(c, d, a, b, p); }
    else if d.y < p.y <= a.y { HoldsAtUp(d, a, b, c, p); }
    else { HoldsAtLevel(a, b, c, d, p); }
  }

  /** The corners of a cell in convex position, named clockwise or counterclockwise. */
  ghost predicate ConvexCell(corner: Corners, i: int, j: int) {
    var a, b := corner(Pos(i, j)), corner(Pos(i + 1, j));
    var c, d := corner(Pos(i + 1, j + 1)), corner(Pos(i, j + 1));
    Convex(a, b, c, d) || Convex(d, c, b, a)
  }

  /** The point lies on the outer side of the line through `a` and `b`: `c`, another corner, lies on the other side. */
  ghost predicate OuterSide(a: Point, b: Point, c: Point, p: Point) {
    (Turn(a, b, c) > 0.0 && Turn(a, b, p) < 0.0) || (Turn(a, b, c) < 0.0 && Turn(a, b, p) > 0.0)
  }

  /** A cell with convex corners holds a point just when the point lies on no outer side of its four lines. */
  lemma ConvexCellHolds(corner: Corners, i: int, j: int, p: Point)
    requires ConvexCell(corner, i, j)
    ensures
      var a, b := corner(Pos(i, j)), corner(Pos(i + 1, j));
      var c, d := corner(Pos(i + 1, j + 1)), corner(Pos(i, j + 1));
      CellHolds(corner, i, j, p) <==>
        !OuterSide(a, b, c, p) && !OuterSide(b, c, d, p) && !OuterSide(c, d, a, p) && !OuterSide(d, a, b, p)
  {
    var a, b := corner(Pos(i, j)), corner(Pos(i + 1, j));
    var c, d := corner(Pos(i + 1, j + 1)), corner(Pos(i, j + 1));
    CellBySides(corner, i, j, p);
    TurnsBack(a, b, c, d);
    TurnsAgree(a, b, p);
    TurnsAgree(b, c, p);
    TurnsAgree(c, d, p);
    TurnsAgree(d, a, p);
    hide Turn, CellHolds, OnSides, OddCrossings;
    if Convex(a, b, c, d) {
      ConvexHolds(a, b, c, d, p);
    } else {
      ConvexHolds(d, c, b, a, p);
      SidesBackwards(a, b, c, d, p);
    }
  }

  lemma TurnsBack(a: Point, b: Point, c: Point, d: Point)
    ensures Turn(d, c, b) == -Turn(b, c, d) && Turn(c, b, a) == -Turn(a, b, c)
    ensures Turn(b, a, d) == -Turn(d, a, b) && Turn(a, d, c) == -Turn(c, d, a)
  {
  }

  lemma SidesBackwards(a: Point, b: Point, c: Point, d: Point, p: Point)
    ensures OnSides(d, c, b, a, p) == OnSides(a, b, c, d, p)
    ensures OddCrossings(d, c, b, a, p) == OddCrossings(a, b, c, d, p)
  {
    hide OnEdge, Crosses;
    SegmentSymmetric(a, b, p);
    SegmentSymmetric(b, c, p);
    SegmentSymmetric(c, d, p);
    SegmentSymmetric(d, a, p);
  }

  /** The outline of one cell has four sides. */
  lemma CellBySides(corner: Corners, i: int, j: int, p: Point)
    ensures
      var a, b := corner(Pos(i, j)), corner(Pos(i + 1, j));
      var c, d := corner(Pos(i + 1, j + 1)), corner(Pos(i, j + 1));
      CellHolds(corner, i, j, p) <==> OnSides(a, b, c, d, p) || OddCrossings(a, b, c, d, p)
  {
    hide OnEdge, Crosses, LineParity, OnLine;
    OneSegment(Row(corner, j), i, p);
    OneSegment(Row(corner, j + 1), i, p);
    OneSegment(Column(corner, i), j, p);
    OneSegment(Column(corner, i + 1), j, p);
    SegmentSymmetric(corner(Pos(i, j + 1)), corner(Pos(i + 1, j + 1)), p);
    SegmentSymmetric(corner(Pos(i, j)), corner(Pos(i, j + 1)), p);
  }
}
