/** Reachability between cells of a region, and the closure argument behind every flood fill. */
module Reachability {
  import opened Cells

  /** A walk inside `region` whose consecutive cells are linked. */
  ghost predicate IsPath(w: Walls, region: set<Pos>, path: seq<Pos>) {
    && path != []
    && (forall k :: 0 <= k < |path| ==> path[k] in region)
    && (forall k :: 0 < k < |path| ==> Linked(w, path[k-1], path[k]))
  }

  ghost predicate Connected(w: Walls, region: set<Pos>, a: Pos, b: Pos) {
    exists path :: IsPath(w, region, path) && path[0] == a && path[|path|-1] == b
  }

  /** The cells of `region` that can be reached from `a` without leaving `region`. */
  ghost function Component(w: Walls, region: set<Pos>, a: Pos): set<Pos> {
    set b | b in region && Connected(w, region, a, b)
  }

  /** No linked pair of cells of `region` leaves `s`. */
  ghost predicate Closed(w: Walls, region: set<Pos>, s: set<Pos>) {
    forall a, b :: a in s && b in region && Linked(w, a, b) ==> b in s
  }

  lemma ConnectedRefl(w: Walls, region: set<Pos>, a: Pos)
    requires a in region
    ensures Connected(w, region, a, a)
  {
    assert IsPath(w, region, [a]);
  }

  lemma ConnectedStep(w: Walls, region: set<Pos>, a: Pos, b: Pos, c: Pos)
    requires Connected(w, region, a, b) && Linked(w, b, c) && c in region
    ensures Connected(w, region, a, c)
  {
    var path :| IsPath(w, region, path) && path[0] == a && path[|path|-1] == b;
    assert IsPath(w, region, path + [c]);
  }

  lemma ConnectedSym(w: Walls, region: set<Pos>, a: Pos, b: Pos)
    requires Connected(w, region, a, b)
    ensures Connected(w, region, b, a)
  {
    var path :| IsPath(w, region, path) && path[0] == a && path[|path|-1] == b;
    var n := |path|;
    var back := seq(n, k requires 0 <= k < n => path[n - 1 - k]);
    forall k | 0 < k < n ensures Linked(w, back[k-1], back[k]) {
      assert Linked(w, path[n - 1 - k], path[n - k]);
    }
    assert IsPath(w, region, back);
  }

  lemma ConnectedTrans(w: Walls, region: set<Pos>, a: Pos, b: Pos, c: Pos)
    requires Connected(w, region, a, b) && Connected(w, region, b, c)
    ensures Connected(w, region, a, c)
  {
    var p :| IsPath(w, region, p) && p[0] == a && p[|p|-1] == b;
    var q :| IsPath(w, region, q) && q[0] == b && q[|q|-1] == c;
    var r := p + q[1..];
    forall k | 0 < k < |r| ensures Linked(w, r[k-1], r[k]) {
      if k >= |p| {
        assert r[k] == q[k - |p| + 1];
        assert r[k-1] == q[k - |p|];
      }
    }
    assert IsPath(w, region, r);
  }

  /** A larger region keeps every connection. */
  lemma ConnectedMono(w: Walls, small: set<Pos>, large: set<Pos>, a: Pos, b: Pos)
    requires small <= large && Connected(w, small, a, b)
    ensures Connected(w, large, a, b)
  {
    var path :| IsPath(w, small, path) && path[0] == a && path[|path|-1] == b;
    assert IsPath(w, large, path);
  }

  /** A closed set that holds the first cell of a path holds all of it. */
  lemma {:induction false} PathStaysClosed(w: Walls, region: set<Pos>, s: set<Pos>, path: seq<Pos>)
    requires Closed(w, region, s) && IsPath(w, region, path) && path[0] in s
    ensures forall k :: 0 <= k < |path| ==> path[k] in s
  {
    if |path| > 1 {
      var front := path[..|path|-1];
      assert IsPath(w, region, front);
      PathStaysClosed(w, region, s, front);
      assert front[|path|-2] == path[|path|-2];
      forall k | 0 <= k < |path| ensures path[k] in s {
        if k < |path| - 1 { assert front[k] == path[k]; }
      }
    }
  }

  /** A closed set that holds a cell holds its whole component. */
  lemma ComponentInClosed(w: Walls, region: set<Pos>, s: set<Pos>, a: Pos)
    requires Closed(w, region, s) && a in s
    ensures Component(w, region, a) <= s
  {
    forall b | b in Component(w, region, a) ensures b in s {
      var path :| IsPath(w, region, path) && path[0] == a && path[|path|-1] == b;
      PathStaysClosed(w, region, s, path);
    }
  }

  /** What is left of `region` once the neighbour `n` of `p` has been explored, if the two are linked at all. */
  ghost function Explored(w: Walls, region: set<Pos>, p: Pos, n: Pos): set<Pos> {
    if Linked(w, p, n) then region - Component(w, region, n) else region
  }

  /**
   * The step of a depth-first fill: taking `p` out of the region and then exploring its four neighbours one after
   * the other, each in what the earlier ones left, takes out exactly the component of `p`.
   */
  lemma FillStep(w: Walls, region: set<Pos>, p: Pos, n: seq<Pos>, left: seq<set<Pos>>)
    requires p in region && |n| == 4 && |left| == 5
    requires forall q :: Linked(w, p, q) ==> q in n
    requires left[0] == region - {p}
    requires forall k :: 0 <= k < 4 ==> left[k+1] == Explored(w, left[k], p, n[k])
    ensures left[4] == region - Component(w, region, p)
  {
    Shrinks(w, p, n, left);
    forall q | q in region - left[4] ensures q in Component(w, region, p) {
      TakenIsReachable(w, region, p, n, left, q);
    }
    var taken := region - left[4];
    forall a, b | a in taken && b in region && Linked(w, a, b) ensures b in taken {
      if a == p {
        var k :| 0 <= k < 4 && n[k] == b;
        assert left[k+1] == left[k] - Component(w, left[k], b);
        if b in left[k] { ConnectedRefl(w, left[k], b); }
        assert b !in left[k+1];
        assert left[4] <= left[k+1];
      } else {
        TakenTakesNeighbours(w, region, p, n, left, a, b);
      }
    }
    assert Closed(w, region, taken);
    assert p in taken;
    ComponentInClosed(w, region, taken, p);
  }

  lemma Shrinks(w: Walls, p: Pos, n: seq<Pos>, left: seq<set<Pos>>)
    requires |n| == 4 && |left| == 5
    requires forall k :: 0 <= k < 4 ==> left[k+1] == Explored(w, left[k], p, n[k])
    ensures forall k, m :: 0 <= k <= m < 5 ==> left[m] <= left[k]
  {
    assert left[1] <= left[0];
    assert left[2] <= left[1];
    assert left[3] <= left[2];
    assert left[4] <= left[3];
  }

  /** The step at which a cell was taken out. */
  lemma TakenAt(w: Walls, region: set<Pos>, p: Pos, n: seq<Pos>, left: seq<set<Pos>>, q: Pos) returns (k: nat)
    requires p in region && |n| == 4 && |left| == 5
    requires left[0] == region - {p}
    requires forall k :: 0 <= k < 4 ==> left[k+1] == Explored(w, left[k], p, n[k])
    requires q in region - left[4] && q != p
    ensures k < 4 && Linked(w, p, n[k]) && q in Component(w, left[k], n[k])
  {
    if q !in left[1] { k := 0; }
    else if q !in left[2] { k := 1; }
    else if q !in left[3] { k := 2; }
    else { k := 3; }
    assert left[k+1] == Explored(w, left[k], p, n[k]);
  }

  lemma TakenIsReachable(w: Walls, region: set<Pos>, p: Pos, n: seq<Pos>, left: seq<set<Pos>>, q: Pos)
    requires p in region && |n| == 4 && |left| == 5
    requires left[0] == region - {p}
    requires forall k :: 0 <= k < 4 ==> left[k+1] == Explored(w, left[k], p, n[k])
    requires q in region - left[4]
    ensures q in Component(w, region, p)
  {
    ConnectedRefl(w, region, p);
    if q != p {
      Shrinks(w, p, n, left);
      var k := TakenAt(w, region, p, n, left, q);
      var path :| IsPath(w, left[k], path) && path[0] == n[k] && path[|path|-1] == q;
      assert path[0] in left[0];
      ConnectedStep(w, region, p, p, n[k]);
      ConnectedMono(w, left[k], region, n[k], q);
      ConnectedTrans(w, region, p, n[k], q);
    }
  }

  lemma TakenTakesNeighbours(w: Walls, region: set<Pos>, p: Pos, n: seq<Pos>, left: seq<set<Pos>>, a: Pos, b: Pos)
    requires p in region && |n| == 4 && |left| == 5
    requires left[0] == region - {p}
    requires forall k :: 0 <= k < 4 ==> left[k+1] == Explored(w, left[k], p, n[k])
    requires a in region - left[4] && a != p && b in region && Linked(w, a, b)
    ensures b !in left[4]
  {
    Shrinks(w, p, n, left);
    var k := TakenAt(w, region, p, n, left, a);
    assert left[k+1] == Explored(w, left[k], p, n[k]);
    if b in left[k] {
      ConnectedStep(w, left[k], n[k], a, b);
      assert b !in left[k+1];
    }
    assert left[4] <= left[k];
    assert left[4] <= left[k+1];
  }
}
