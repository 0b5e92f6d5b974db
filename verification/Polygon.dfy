/** Polygons of points in the plane, and the ray-crossing test for a point, in exact arithmetic. */
module Polygons {

  datatype Point = Point(x: real, y: real)

  function MinReal(a: real, b: real): real { if a < b then a else b }

  function MaxReal(a: real, b: real): real { if a < b then b else a }

  /** The height of the line through `a` and `b` at `x`. */
  function HeightAt(a: Point, b: Point, x: real): real
    requires a.x != b.x
  {
    var slope := (b.y - a.y) / (b.x - a.x);
    slope * (x - a.x) + a.y
  }

  /** Where the line through `a` and `b` has a given height. */
  function MeetsAt(a: Point, b: Point, y: real): real
    requires a.y != b.y
  {
    (y - a.y) * (b.x - a.x) / (b.y - a.y) + a.x
  }

  /** The point lies on the segment from `a` to `b`. */
  predicate OnEdge(a: Point, b: Point, p: Point) {
    var xmin, xmax := MinReal(a.x, b.x), MaxReal(a.x, b.x);
    var ymin, ymax := MinReal(a.y, b.y), MaxReal(a.y, b.y);
    if a.x == b.x then p.x == a.x && ymin <= p.y <= ymax
    else if a.y == b.y then xmin <= p.x <= xmax && p.y == a.y
    else
      HeightAt(a, b, p.x) == p.y && xmin <= p.x <= xmax && ymin <= p.y <= ymax
  }

  /** The ray from `p` to the right crosses the segment from `a` to `b`. */
  predicate Crosses(a: Point, b: Point, p: Point) {
    && a != b
    && MinReal(a.y, b.y) < p.y <= MaxReal(a.y, b.y)
    && p.x <= MaxReal(a.x, b.x)
    && (a.x == b.x || p.x <= MeetsAt(a, b, p.y))
  }

  /** The height of the line at `x`, and its abscissa at `y`, do not depend on the end one starts from. */
  lemma LineFromBothEnds(a: Point, b: Point, x: real, y: real)
    ensures a.x != b.x ==> HeightAt(a, b, x) == HeightAt(b, a, x)
    ensures a.y != b.y ==> MeetsAt(a, b, y) == MeetsAt(b, a, y)
  {
    if a.x != b.x {
      var m, n := (b.y - a.y) / (b.x - a.x), (a.y - b.y) / (a.x - b.x);
      SameQuotient(b.y - a.y, b.x - a.x);
      assert m * (b.x - a.x) == b.y - a.y;
      assert m * (x - a.x) - m * (x - b.x) == m * (b.x - a.x);
    }
    if a.y != b.y {
      var d := b.y - a.y;
      var u, v := (y - a.y) * (b.x - a.x), (y - b.y) * (a.x - b.x);
      SameQuotient(v, d);
      assert u + v == d * (b.x - a.x);
      QuotientOfSum(u, v, d, b.x - a.x);
    }
  }

  lemma SameQuotient(n: real, d: real)
    requires d != 0.0
    ensures n / d == (-n) / (-d)
    ensures (n / d) * d == n
  {
    assert (n / d) * d == n;
    assert ((-n) / (-d)) * (-d) == -n;
    Cancel(n / d, (-n) / (-d), d);
  }

  lemma Cancel(x: real, y: real, d: real)
    requires d != 0.0 && x * d == y * d
    ensures x == y
  {
    assert (x - y) * d == 0.0;
  }

  lemma QuotientOfSum(u: real, v: real, d: real, w: real)
    requires d != 0.0 && u + v == d * w
    ensures u / d + v / d == w
  {
    assert (u / d) * d == u && (v / d) * d == v;
    assert (u / d + v / d) * d == w * d;
    Cancel(u / d + v / d, w, d);
  }

  /** Neither test depends on the direction of the segment. */
  lemma SegmentSymmetric(a: Point, b: Point, p: Point)
    ensures OnEdge(a, b, p) == OnEdge(b, a, p)
    ensures Crosses(a, b, p) == Crosses(b, a, p)
  {
    LineFromBothEnds(a, b, p.x, p.y);
    hide HeightAt, MeetsAt;
  }

  /** The point that divides the segment from `a` to `b` in the ratio of `t` to `1 - t`. */
  function Between(a: Point, b: Point, t: real): Point {
    Point(a.x + t * (b.x - a.x), a.y + t * (b.y - a.y))
  }

  lemma Share(n: real, d: real)
    requires d != 0.0
    ensures (n / d) * d == n
  {
  }

  /** A share of a distance lies within it just when the ratio is between zero and one. */
  lemma ShareInRange(t: real, d: real, z: real, low: real, high: real)
    requires d != 0.0 && z == low + t * d && high == low + d
    ensures MinReal(low, high) <= z <= MaxReal(low, high) <==> 0.0 <= t <= 1.0
  {
    if d > 0.0 {
      Signs(t, d);
      Signs(1.0 - t, d);
    } else {
      Signs(t, -d);
      Signs(1.0 - t, -d);
    }
  }

  lemma Signs(t: real, d: real)
    requires d > 0.0
    ensures t * d >= 0.0 <==> t >= 0.0
  {
  }

  lemma RatioIsUnique(a: Point, b: Point, t: real, u: real)
    requires Between(a, b, t).y == Between(a, b, u).y && a.y != b.y
    ensures t == u
  {
    Cancel(t, u, b.y - a.y);
  }

  /** Where a segment has a given height. */
  lemma MeetsAtRatio(a: Point, b: Point, y: real)
    requires a.y != b.y
    ensures Between(a, b, (y - a.y) / (b.y - a.y)) == Point(MeetsAt(a, b, y), y)
  {
    var d := b.y - a.y;
    Share(y - a.y, d);
    Share((y - a.y) * (b.x - a.x), d);
    var t, u := (y - a.y) / d, (y - a.y) * (b.x - a.x) / d;
    assert (t * (b.x - a.x)) * d == (t * d) * (b.x - a.x);
    Cancel(t * (b.x - a.x), u, d);
  }

  /** Between two heights one is above or on the height and the other below it. */
  lemma HeightBetween(a: real, b: real, y: real)
    ensures MinReal(a, b) < y <= MaxReal(a, b) <==> (a < y) != (b < y)
  {
  }

  /**
   * What a crossing is: the ends of the segment lie on different sides of the height of the point, where an end at
   * this height counts as above, and the point of the segment at that height is not to the left.
   */
  lemma CrossesMeaning(a: Point, b: Point, p: Point)
    ensures Crosses(a, b, p) <==>
            (a.y < p.y) != (b.y < p.y)
            && exists t: real :: 0.0 <= t <= 1.0 && Between(a, b, t).y == p.y && p.x <= Between(a, b, t).x
  {
    HeightBetween(a.y, b.y, p.y);
    if (a.y < p.y) != (b.y < p.y) {
      var t := (p.y - a.y) / (b.y - a.y);
      MeetsAtRatio(a, b, p.y);
      ShareInRange(t, b.y - a.y, p.y, a.y, b.y);
      var m := MeetsAt(a, b, p.y);
      hide MeetsAt;
      MeetsInRange(a, b, t, m);
      forall u: real | Between(a, b, u).y == p.y ensures u == t {
        RatioIsUnique(a, b, u, t);
      }
    }
  }

  lemma MeetsInRange(a: Point, b: Point, t: real, m: real)
    requires 0.0 <= t <= 1.0 && m == a.x + t * (b.x - a.x)
    ensures MinReal(a.x, b.x) <= m <= MaxReal(a.x, b.x)
  {
    if a.x != b.x { ShareInRange(t, b.x - a.x, m, a.x, b.x); }
  }

  /** What it means to lie on a segment: to divide it in some ratio. */
  lemma OnEdgeMeaning(a: Point, b: Point, p: Point)
    ensures OnEdge(a, b, p) <==> exists t: real :: 0.0 <= t <= 1.0 && Between(a, b, t) == p
  {
    if OnEdge(a, b, p) {
      var t := RatioOf(a, b, p);
      assert Between(a, b, t) == p;
    }
    if t: real :| 0.0 <= t <= 1.0 && Between(a, b, t) == p { DividesOnEdge(a, b, p, t); }
  }

  /** The ratio in which a point on a segment divides it. */
  lemma RatioOf(a: Point, b: Point, p: Point) returns (t: real)
    requires OnEdge(a, b, p)
    ensures 0.0 <= t <= 1.0 && Between(a, b, t) == p
  {
    hide HeightAt;
    if a.x != b.x {
      t := RatioInRange(a.x, b.x, p.x);
      if a.y != b.y { HeightRatio(a, b, p.x, t); } else { Nothing(t, b.y - a.y); }
    } else if a.y != b.y {
      t := RatioInRange(a.y, b.y, p.y);
      Nothing(t, b.x - a.x);
    } else {
      t := 0.0;
    }
  }

  lemma RatioInRange(low: real, high: real, z: real) returns (t: real)
    requires low != high && MinReal(low, high) <= z <= MaxReal(low, high)
    ensures 0.0 <= t <= 1.0 && low + t * (high - low) == z
  {
    t := (z - low) / (high - low);
    Share(z - low, high - low);
    ShareInRange(t, high - low, z, low, high);
  }

  lemma Nothing(t: real, d: real)
    requires d == 0.0
    ensures t * d == 0.0
  {
  }

  /** The height at `x` is that of the point which divides the segment there. */
  lemma HeightRatio(a: Point, b: Point, x: real, t: real)
    requires a.x != b.x && x - a.x == t * (b.x - a.x)
    ensures HeightAt(a, b, x) == a.y + t * (b.y - a.y)
  {
    var d, h := b.x - a.x, b.y - a.y;
    var m := h / d;
    Share(h, d);
    assert m * (t * d) == t * (m * d);
  }

  lemma DividesOnEdge(a: Point, b: Point, p: Point, t: real)
    requires 0.0 <= t <= 1.0 && Between(a, b, t) == p
    ensures OnEdge(a, b, p)
  {
    hide HeightAt;
    MeetsInRange(a, b, t, p.x);
    MeetsInRange(Point(a.y, 0.0), Point(b.y, 0.0), t, p.y);
    if a.x != b.x { HeightRatio(a, b, p.x, t); }
  }

  /** The index after `k` in a cyclic list of `n` points. */
  function Next(k: nat, n: nat): (next: nat)
    requires k < n
    ensures next < n
  {
    if k + 1 == n then 0 else k + 1
  }

  lemma NextIsModulo(k: nat, n: nat)
    requires k < n
    ensures (k + 1) % n == Next(k, n)
  {
    if k + 1 < n { assert (k + 1) % n == k + 1; }
  }

  /** Among the first `n` segments of a cyclic list of points there is an odd number of crossings. */
  ghost function CyclicParity(points: seq<Point>, n: nat, p: Point): bool
    requires n <= |points|
  {
    if n == 0 then false
    else CyclicParity(points, n - 1, p) != Crosses(points[n-1], points[Next(n - 1, |points|)], p)
  }

  /** The point lies on segment number `k` of a cyclic list of points. */
  ghost predicate OnSegment(points: seq<Point>, k: int, p: Point) {
    0 <= k < |points| && OnEdge(points[k], points[Next(k, |points|)], p)
  }

  /** The point lies on one of the first `n` segments of a cyclic list of points. */
  ghost predicate OnCyclic(points: seq<Point>, n: nat, p: Point) {
    exists k :: k < n && OnSegment(points, k, p)
  }

  /** What the test says of a polygon: on its boundary (if that counts), or crossed an odd number of times. */
  ghost predicate Inside(points: seq<Point>, p: Point, forceEdgeInside: bool) {
    (forceEdgeInside && OnCyclic(points, |points|, p)) || CyclicParity(points, |points|, p)
  }

  class Polygon {
    var xcoord: seq<real>
    var ycoord: seq<real>
    ghost var points: seq<Point>

    ghost predicate Valid()
      reads this
    {
      && |xcoord| == |ycoord| == |points|
      && forall k :: 0 <= k < |points| ==> points[k] == Point(xcoord[k], ycoord[k])
    }

    constructor ()
      ensures Valid() && points == []
    {
      xcoord, ycoord, points := [], [], [];
    }

    method Reset()
      modifies this
      ensures Valid() && points == []
    {
      xcoord, ycoord, points := [], [], [];
    }

    method AddPoint(x: real, y: real)
      requires Valid()
      modifies this
      ensures Valid() && points == old(points) + [Point(x, y)]
    {
      xcoord, ycoord := xcoord + [x], ycoord + [y];
      points := points + [Point(x, y)];
    }

    /** Adds the first point once more at the end. */
    method Close()
      requires Valid() && points != []
      modifies this
      ensures Valid() && points == old(points) + [old(points)[0]]
    {
      AddPoint(xcoord[0], ycoord[0]);
    }

    /** Whether the ray from a point crosses one segment; `xc` is where it meets the line of the segment. */
    static method TestEdge(a: Point, b: Point, p: Point, xc: real) returns (crosses: bool, xc': real)
      ensures crosses == Crosses(a, b, p)
    {
      hide MeetsAt;
      xc' := xc;
      if a.x == b.x && a.y == b.y { return false, xc'; }
      if p.y > MinReal(a.y, b.y) && p.y <= MaxReal(a.y, b.y) {
        if p.x <= MaxReal(a.x, b.x) {
          if a.y != b.y {
            xc' := MeetsAt(a, b, p.y);
          }
          return a.x == b.x || p.x <= xc', xc';
        }
      }
      return false, xc';
    }

    method Contains(x0: real, y0: real, forceEdgeInside: bool) returns (inside: bool)
      requires Valid()
      ensures inside == Inside(points, Point(x0, y0), forceEdgeInside)
    {
      hide OnEdge, Crosses, OnCyclic, CyclicParity;
      var p := Point(x0, y0);
      inside := false;
      var xc := 0.0;
      var n := |xcoord|;
      NoSegmentYet(points, p);
      for i := 0 to n
        invariant n == |points|
        invariant inside == CyclicParity(points, i, p)
        invariant forceEdgeInside ==> !OnCyclic(points, i, p)
      {
        NextIsModulo(i, n);
        var next := (i + 1) % n;
        var a, b := Point(xcoord[i], ycoord[i]), Point(xcoord[next], ycoord[next]);
        assert points[i] == a && points[next] == b;
        OneMoreEdge(points, i, p);
        if forceEdgeInside && OnEdge(a, b, p) {
          OnSomeEdge(points, i + 1, p);
          return true;
        }
        var crosses;
        crosses, xc := TestEdge(a, b, p, xc);
        if crosses {
          inside := !inside;
        }
      }
    }
  }

  lemma NoSegmentYet(points: seq<Point>, p: Point)
    ensures !OnCyclic(points, 0, p) && !CyclicParity(points, 0, p)
  {
    hide OnEdge;
  }

  lemma OneMoreEdge(points: seq<Point>, i: nat, p: Point)
    requires i < |points|
    ensures
      var next := points[Next(i, |points|)];
      && (OnCyclic(points, i + 1, p) <==> OnCyclic(points, i, p) || OnEdge(points[i], next, p))
      && CyclicParity(points, i + 1, p) == (CyclicParity(points, i, p) != Crosses(points[i], next, p))
  {
    hide OnEdge, Crosses;
    if OnSegment(points, i, p) { assert OnCyclic(points, i + 1, p); }
  }

  lemma OnSomeEdge(points: seq<Point>, i: nat, p: Point)
    requires i <= |points| && OnCyclic(points, i, p)
    ensures OnCyclic(points, |points|, p)
  {
    hide OnEdge, OnSegment;
    var k :| k < i && OnSegment(points, k, p);
  }

  /** An odd number of crossings with the segments of a list of points that is not closed. */
  ghost function ChainParity(points: seq<Point>, p: Point): bool {
    if |points| < 2 then false else Crosses(points[0], points[1], p) != ChainParity(points[1..], p)
  }

  /** The point lies on a segment of a list of points that is not closed. */
  ghost predicate OnChain(points: seq<Point>, p: Point) {
    |points| >= 2 && (OnEdge(points[0], points[1], p) || OnChain(points[1..], p))
  }

  lemma {:induction false} ChainAppend(points: seq<Point>, b: Point, p: Point)
    requires points != []
    ensures
      var longer, last := points + [b], points[|points|-1];
      && ChainParity(longer, p) == (ChainParity(points, p) != Crosses(last, b, p))
      && (OnChain(longer, p) <==> OnChain(points, p) || OnEdge(last, b, p))
  {
    hide Crosses, OnEdge;
    var longer := points + [b];
    if |points| > 1 {
      ChainAppend(points[1..], b, p);
      assert longer[1..] == points[1..] + [b];
    } else {
      assert longer[1..] == [b];
    }
  }

  lemma {:induction false} CyclicIsChain(points: seq<Point>, n: nat, p: Point)
    requires n < |points|
    ensures CyclicParity(points, n, p) == ChainParity(points[..n+1], p)
    ensures OnCyclic(points, n, p) <==> OnChain(points[..n+1], p)
  {
    hide Crosses, OnEdge, OnCyclic;
    if n > 0 {
      CyclicIsChain(points, n - 1, p);
      assert points[..n+1] == points[..n] + [points[n]];
      ChainAppend(points[..n], points[n], p);
      OneMoreEdge(points, n - 1, p);
    } else {
      NoSegmentYet(points, p);
    }
  }

  lemma LineThroughEnds(a: Point, b: Point)
    requires a.x != b.x
    ensures HeightAt(a, b, a.x) == a.y && HeightAt(a, b, b.x) == b.y
  {
    var d := b.x - a.x;
    SameQuotient(b.y - a.y, d);
    assert a.x - a.x == 0.0;
  }

  lemma EndpointOnEdge(a: Point, b: Point)
    ensures OnEdge(a, b, a) && OnEdge(a, b, b)
    ensures !Crosses(a, a, b) && (OnEdge(a, a, b) ==> a == b)
  {
    hide HeightAt, MeetsAt;
    if a.x != b.x { LineThroughEnds(a, b); }
  }

  /** For a polygon whose last point repeats its first one, the test looks at the segments of the list. */
  lemma ClosedInside(points: seq<Point>, p: Point)
    requires |points| > 1 && points[|points|-1] == points[0]
    ensures Inside(points, p, true) <==> OnChain(points, p) || ChainParity(points, p)
  {
    hide Crosses, OnEdge, OnCyclic, CyclicParity;
    var n := |points|;
    CyclicIsChain(points, n - 1, p);
    assert points[..n] == points;
    OneMoreEdge(points, n - 1, p);
    EndpointOnEdge(points[0], p);
    EndpointOnEdge(points[0], points[1]);
  }
}
