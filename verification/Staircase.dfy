/** The greedy staircase that follows the straight line between two corners, and the walls along a line of corners. */
module Staircase {
  import opened Cells

  function Abs(x: int): nat { if x < 0 then -x else x }

  function AbsReal(x: real): real { if x < 0.0 then -x else x }

  function Sign(x: int): int
    requires x != 0
  {
    Abs(x) / x
  }

  /** Twice the signed area of the triangle spanned by the line and a corner: zero on the line. */
  function Cross(p1: Pos, p2: Pos, p: Pos): int {
    (p2.j - p1.j) * (p.i - p1.i) - (p2.i - p1.i) * (p.j - p1.j)
  }

  /** The distance from the line `a * x + b * y + c = 0`, up to the factor `sqrt(a * a + b * b)`. */
  function LineOffset(a: real, b: real, c: real, i: int, j: int): real {
    AbsReal(a * i as real + b * j as real + c)
  }

  /** A factor common to two distances does not change which one is smaller. */
  lemma CommonFactor(x: real, y: real, f: real)
    requires f > 0.0
    ensures x / f <= y / f <==> x <= y
  {
    if x <= y { assert (y - x) / f >= 0.0; } else { assert (x - y) / f > 0.0; }
  }

  /** The offset computed from slope and intercept is the cross product over the width of the line. */
  lemma OffsetIsCross(p1: Pos, p2: Pos, a: real, b: real, i: int, j: int)
    requires p1.i != p2.i
    requires a == (p2.j - p1.j) as real / (p2.i - p1.i) as real
    requires b == p1.j as real - a * p1.i as real
    ensures LineOffset(a, -1.0, b, i, j) * Abs(p2.i - p1.i) as real == Abs(Cross(p1, p2, Pos(i, j))) as real
  {
    var d, h := (p2.i - p1.i) as real, (p2.j - p1.j) as real;
    var x, y := (i - p1.i) as real, (j - p1.j) as real;
    assert a * d == h;
    var v := a * i as real + (-1.0) * j as real + b;
    assert v == a * x - y;
    assert v * d == h * x - d * y by {
      assert (a * x - y) * d == (a * d) * x - d * y;
    }
    assert h * x - d * y == Cross(p1, p2, Pos(i, j)) as real;
    assert AbsReal(v) * AbsReal(d) == AbsReal(v * d);
  }

  lemma Scale(x: real, y: real, f: real)
    requires f > 0.0
    ensures x <= y <==> x * f <= y * f
  {
    if x <= y { assert (y - x) * f >= 0.0; } else { assert (x - y) * f > 0.0; }
  }

  /** The comparison of the two distances is the comparison of the two cross products. */
  lemma OffsetsCompare(p1: Pos, p2: Pos, a: real, b: real, i: int, j: int, i': int, j': int)
    requires p1.i != p2.i
    requires a == (p2.j - p1.j) as real / (p2.i - p1.i) as real
    requires b == p1.j as real - a * p1.i as real
    ensures LineOffset(a, -1.0, b, i, j) <= LineOffset(a, -1.0, b, i', j') <==>
            Abs(Cross(p1, p2, Pos(i, j))) <= Abs(Cross(p1, p2, Pos(i', j')))
  {
    SizeOfLine(p1, p2);
    hide LineOffset, Cross, AbsReal, Abs;
    OffsetIsCross(p1, p2, a, b, i, j);
    OffsetIsCross(p1, p2, a, b, i', j');
    ScaledCompare(LineOffset(a, -1.0, b, i, j), LineOffset(a, -1.0, b, i', j'), Abs(p2.i - p1.i) as real,
                  Abs(Cross(p1, p2, Pos(i, j))), Abs(Cross(p1, p2, Pos(i', j'))));
  }

  lemma ScaledCompare(x: real, y: real, f: real, m: int, n: int)
    requires f > 0.0 && x * f == m as real && y * f == n as real
    ensures x <= y <==> m <= n
  {
    Scale(x, y, f);
  }

  /** One step of the staircase: to the neighbouring corner that is closer to the line. */
  function Next(p1: Pos, p2: Pos, p: Pos): Pos
    requires p1.i != p2.i && p1.j != p2.j
  {
    var across := Pos(p.i + Sign(p2.i - p1.i), p.j);
    var along := Pos(p.i, p.j + Sign(p2.j - p1.j));
    if Abs(Cross(p1, p2, across)) <= Abs(Cross(p1, p2, along)) then across else along
  }

  /** How far a corner is above or below the line through two corners. */
  ghost function Gap(p1: Pos, p2: Pos, p: Pos): real
    requires p1.i != p2.i
  {
    AbsReal(p1.j as real + ((p2.j - p1.j) as real / (p2.i - p1.i) as real) * (p.i - p1.i) as real - p.j as real)
  }

  /**
   * A step goes towards the end, across or along, to the corner that is less far above or below the line; across if
   * both are equally far.
   */
  lemma NextMeaning(p1: Pos, p2: Pos, p: Pos)
    requires p1.i != p2.i && p1.j != p2.j
    ensures
      var across := Pos(if p1.i < p2.i then p.i + 1 else p.i - 1, p.j);
      var along := Pos(p.i, if p1.j < p2.j then p.j + 1 else p.j - 1);
      Next(p1, p2, p) == if Gap(p1, p2, across) <= Gap(p1, p2, along) then across else along
  {
    hide Cross, Gap, Abs, Sign;
    SignIs(p2.i - p1.i);
    SignIs(p2.j - p1.j);
    var across := Pos(if p1.i < p2.i then p.i + 1 else p.i - 1, p.j);
    var along := Pos(p.i, if p1.j < p2.j then p.j + 1 else p.j - 1);
    GapIsCross(p1, p2, across);
    GapIsCross(p1, p2, along);
    SizeOfLine(p1, p2);
    ScaledCompare(Gap(p1, p2, across), Gap(p1, p2, along), Abs(p2.i - p1.i) as real,
                  Abs(Cross(p1, p2, across)), Abs(Cross(p1, p2, along)));
  }

  lemma GapIsCross(p1: Pos, p2: Pos, p: Pos)
    requires p1.i != p2.i
    ensures Gap(p1, p2, p) * Abs(p2.i - p1.i) as real == Abs(Cross(p1, p2, p)) as real
  {
    var a := (p2.j - p1.j) as real / (p2.i - p1.i) as real;
    var b := p1.j as real - a * p1.i as real;
    hide Cross, Abs;
    assert a * (p.i - p1.i) as real == a * p.i as real - a * p1.i as real;
    assert Gap(p1, p2, p) == LineOffset(a, -1.0, b, p.i, p.j);
    OffsetIsCross(p1, p2, a, b, p.i, p.j);
  }

  /** How many steps are left in each direction. */
  ghost predicate Ahead(p1: Pos, p2: Pos, p: Pos, u: nat, v: nat)
    requires p1.i != p2.i && p1.j != p2.j
  {
    && u <= Abs(p2.i - p1.i) && v <= Abs(p2.j - p1.j)
    && p.i == p2.i - Sign(p2.i - p1.i) * u
    && p.j == p2.j - Sign(p2.j - p1.j) * v
  }

  /** How far a corner with `u` and `v` steps left in the two directions is off the line. */
  function Lead(width: int, height: int, u: int, v: int): int {
    width * v - height * u
  }

  /** In terms of the steps that are left, the cross product is the lead up to sign. */
  lemma CrossAhead(p1: Pos, p2: Pos, p: Pos, u: int, v: int)
    requires p1.i != p2.i && p1.j != p2.j
    requires p.i == p2.i - Sign(p2.i - p1.i) * u && p.j == p2.j - Sign(p2.j - p1.j) * v
    ensures Abs(Cross(p1, p2, p)) == Abs(Lead(Abs(p2.i - p1.i), Abs(p2.j - p1.j), u, v))
  {
    var d, h := p2.i - p1.i, p2.j - p1.j;
    SignIs(d);
    SignIs(h);
    hide Sign;
    var x, y := if d > 0 then u else -u, if h > 0 then v else -v;
    CrossOfSteps(d, h, x, y);
    TimesMinus(d, v);
    TimesMinus(-d, v);
    TimesMinus(h, u);
    TimesMinus(-h, u);
  }

  lemma SignIs(x: int)
    requires x != 0
    ensures Sign(x) == if x > 0 then 1 else -1
  {
    if x > 0 { assert x / x == 1; } else { assert (-x) / x == -1; }
  }

  lemma CrossOfSteps(d: int, h: int, x: int, y: int)
    ensures h * (d - x) - d * (h - y) == d * y - h * x
  {
  }

  lemma TimesMinus(x: int, n: int)
    ensures x * -n == -(x * n) == -x * n
  {
  }

  lemma SignTimes(x: int, n: int)
    requires x != 0
    ensures Sign(x) == 1 || Sign(x) == -1
    ensures x * n == Sign(x) * (Abs(x) * n)
  {
    SignIs(x);
  }

  /** With `u` and `v` steps left in the two directions, whether the step is one across. */
  predicate StepsAcross(width: nat, height: nat, u: nat, v: nat) {
    Abs(Lead(width, height, u - 1, v)) <= Abs(Lead(width, height, u, v - 1))
  }

  /** The step rule never overshoots, and keeps the cross product within half of the width plus height. */
  lemma StepRule(width: nat, height: nat, u: nat, v: nat)
    requires width > 0 && height > 0 && u + v > 0
    requires 2 * Abs(Lead(width, height, u, v)) <= width + height
    ensures StepsAcross(width, height, u, v) ==> u > 0 && 2 * Abs(Lead(width, height, u - 1, v)) <= width + height
    ensures !StepsAcross(width, height, u, v) ==> v > 0 && 2 * Abs(Lead(width, height, u, v - 1)) <= width + height
  {
    OneLess(height, u);
    OneLess(width, v);
    if u == 0 { ProductAtLeast(width, v); }
    if v == 0 { ProductAtLeast(height, u); }
    StepKeepsBound(width, height, width * v - height * u, u, v);
  }

  lemma ProductAtLeast(x: nat, n: nat)
    requires n > 0
    ensures x * n >= x
  {
  }

  /** The same in terms of the cross product `c` before the step. */
  lemma StepKeepsBound(width: nat, height: nat, c: int, u: nat, v: nat)
    requires width > 0 && height > 0 && 2 * Abs(c) <= width + height
    requires (u == 0 ==> c >= width) && (v == 0 ==> c + height <= 0)
    ensures Abs(c + height) <= Abs(c - width) ==> u > 0 && 2 * Abs(c + height) <= width + height
    ensures Abs(c + height) > Abs(c - width) ==> v > 0 && 2 * Abs(c - width) <= width + height
  {
  }

  lemma OneLess(x: int, n: int)
    ensures x * (n - 1) == x * n - x
  {
  }

  /** The step from a corner keeps ahead of it one step less, in the direction the rule picks. */
  lemma NextAhead(p1: Pos, p2: Pos, p: Pos, u: nat, v: nat)
    requires p1.i != p2.i && p1.j != p2.j && Ahead(p1, p2, p, u, v) && u + v > 0
    requires 2 * Abs(Cross(p1, p2, p)) <= Abs(p2.i - p1.i) + Abs(p2.j - p1.j)
    ensures
      var width, height := Abs(p2.i - p1.i), Abs(p2.j - p1.j);
      var q := Next(p1, p2, p);
      && 2 * Abs(Cross(p1, p2, q)) <= width + height
      && (if StepsAcross(width, height, u, v) then u > 0 && Ahead(p1, p2, q, u - 1, v) &&
          q == Pos(p.i + Sign(p2.i - p1.i), p.j)
          else v > 0 && Ahead(p1, p2, q, u, v - 1) && q == Pos(p.i, p.j + Sign(p2.j - p1.j)))
  {
    SizeOfLine(p1, p2);
    hide Cross, Sign, Abs, Ahead, Lead;
    CrossAround(p1, p2, p, u, v);
    AheadAround(p1, p2, p, u, v);
    StepRule(Abs(p2.i - p1.i), Abs(p2.j - p1.j), u, v);
  }

  /** The cross products of a corner and of the two corners that a step may lead to. */
  lemma CrossAround(p1: Pos, p2: Pos, p: Pos, u: nat, v: nat)
    requires p1.i != p2.i && p1.j != p2.j && Ahead(p1, p2, p, u, v)
    ensures
      var width, height := Abs(p2.i - p1.i), Abs(p2.j - p1.j);
      && Abs(Cross(p1, p2, p)) == Abs(Lead(width, height, u, v))
      && Abs(Cross(p1, p2, Pos(p.i + Sign(p2.i - p1.i), p.j))) == Abs(Lead(width, height, u - 1, v))
      && Abs(Cross(p1, p2, Pos(p.i, p.j + Sign(p2.j - p1.j)))) == Abs(Lead(width, height, u, v - 1))
  {
    hide Cross, Sign, Abs, Lead;
    OneLess(Sign(p2.i - p1.i), u);
    OneLess(Sign(p2.j - p1.j), v);
    CrossAhead(p1, p2, p, u, v);
    CrossAhead(p1, p2, Pos(p.i + Sign(p2.i - p1.i), p.j), u - 1, v);
    CrossAhead(p1, p2, Pos(p.i, p.j + Sign(p2.j - p1.j)), u, v - 1);
  }

  lemma SizeOfLine(p1: Pos, p2: Pos)
    ensures p1.i != p2.i ==> Abs(p2.i - p1.i) > 0
    ensures p1.j != p2.j ==> Abs(p2.j - p1.j) > 0
  {
  }

  lemma AheadAround(p1: Pos, p2: Pos, p: Pos, u: nat, v: nat)
    requires p1.i != p2.i && p1.j != p2.j && Ahead(p1, p2, p, u, v)
    ensures u > 0 ==> Ahead(p1, p2, Pos(p.i + Sign(p2.i - p1.i), p.j), u - 1, v)
    ensures v > 0 ==> Ahead(p1, p2, Pos(p.i, p.j + Sign(p2.j - p1.j)), u, v - 1)
  {
    hide Sign, Abs;
    OneLess(Sign(p2.i - p1.i), u);
    OneLess(Sign(p2.j - p1.j), v);
  }

  /** The corners of the staircase from `p` on, `n` steps far. */
  function Stairs(p1: Pos, p2: Pos, p: Pos, n: nat): (path: seq<Pos>)
    requires p1.i != p2.i && p1.j != p2.j
    ensures |path| == n + 1 && path[0] == p
    decreases n
  {
    if n == 0 then [p] else [p] + Stairs(p1, p2, Next(p1, p2, p), n - 1)
  }

  /** The staircase of a barrier: just the two corners if they are in line. */
  function BarrierPath(p1: Pos, p2: Pos): seq<Pos> {
    if p1.i == p2.i || p1.j == p2.j then [p1, p2]
    else Stairs(p1, p2, p1, Abs(p2.i - p1.i) + Abs(p2.j - p1.j))
  }

  function Min(x: int, y: int): int { if x < y then x else y }

  function Max(x: int, y: int): int { if x < y then y else x }

  ghost predicate InRectangle(p1: Pos, p2: Pos, p: Pos) {
    Min(p1.i, p2.i) <= p.i <= Max(p1.i, p2.i) && Min(p1.j, p2.j) <= p.j <= Max(p1.j, p2.j)
  }

  /** A step of one unit towards the end of the line. */
  ghost predicate UnitStep(p1: Pos, p2: Pos, a: Pos, b: Pos)
    requires p1.i != p2.i && p1.j != p2.j
  {
    b == Pos(a.i + Sign(p2.i - p1.i), a.j) || b == Pos(a.i, a.j + Sign(p2.j - p1.j))
  }

  ghost predicate NearLine(p1: Pos, p2: Pos, p: Pos) {
    2 * Abs(Cross(p1, p2, p)) <= Abs(p2.i - p1.i) + Abs(p2.j - p1.j) && InRectangle(p1, p2, p)
  }

  lemma AheadInRectangle(p1: Pos, p2: Pos, p: Pos, u: nat, v: nat)
    requires p1.i != p2.i && p1.j != p2.j && Ahead(p1, p2, p, u, v)
    ensures InRectangle(p1, p2, p)
    ensures u + v == 0 ==> p == p2
  {
    SignTimes(p2.i - p1.i, u);
    SignTimes(p2.j - p1.j, v);
  }

  lemma {:induction false} StairsFrom(p1: Pos, p2: Pos, p: Pos, u: nat, v: nat)
    requires p1.i != p2.i && p1.j != p2.j && Ahead(p1, p2, p, u, v)
    requires 2 * Abs(Cross(p1, p2, p)) <= Abs(p2.i - p1.i) + Abs(p2.j - p1.j)
    ensures
      var path := Stairs(p1, p2, p, u + v);
      && path[u + v] == p2
      && (forall k :: 0 <= k <= u + v ==> NearLine(p1, p2, path[k]))
      && (forall k :: 0 < k <= u + v ==> UnitStep(p1, p2, path[k-1], path[k]))
    decreases u + v
  {
    hide Cross, InRectangle, Ahead, Sign, Abs, StepsAcross, Next;
    AheadInRectangle(p1, p2, p, u, v);
    if u + v > 0 {
      NextAhead(p1, p2, p, u, v);
      var q := Next(p1, p2, p);
      if StepsAcross(Abs(p2.i - p1.i), Abs(p2.j - p1.j), u, v) {
        StairsFrom(p1, p2, q, u - 1, v);
      } else {
        StairsFrom(p1, p2, q, u, v - 1);
      }
      var path, rest := Stairs(p1, p2, p, u + v), Stairs(p1, p2, q, u + v - 1);
      assert path == [p] + rest;
    }
  }

  lemma AheadOfStart(p1: Pos, p2: Pos)
    requires p1.i != p2.i && p1.j != p2.j
    ensures Ahead(p1, p2, p1, Abs(p2.i - p1.i), Abs(p2.j - p1.j))
  {
    WholeWidth(p2.i - p1.i);
    WholeWidth(p2.j - p1.j);
    hide Sign, Abs;
  }

  lemma WholeWidth(x: int)
    requires x != 0
    ensures Sign(x) * Abs(x) == x
  {
    SignTimes(x, 1);
  }

  /**
   * The greedy staircase reaches the end corner in exactly as many unit steps as the line is wide and high, never
   * leaves the rectangle of the line, and never strays from it by more than half of the width plus height.
   */
  lemma StaircaseFollowsLine(p1: Pos, p2: Pos)
    requires p1.i != p2.i && p1.j != p2.j
    ensures
      var path := BarrierPath(p1, p2);
      && |path| == Abs(p2.i - p1.i) + Abs(p2.j - p1.j) + 1
      && path[0] == p1 && path[|path|-1] == p2
      && (forall k :: 0 <= k < |path| ==> NearLine(p1, p2, path[k]))
      && (forall k :: 0 < k < |path| ==> UnitStep(p1, p2, path[k-1], path[k]))
  {
    AheadOfStart(p1, p2);
    assert Cross(p1, p2, p1) == 0;
    hide Cross, Sign, Ahead, NearLine, UnitStep;
    StairsFrom(p1, p2, p1, Abs(p2.i - p1.i), Abs(p2.j - p1.j));
  }

  /** The walls along a segment between two corners in line. */
  ghost function SegmentWalls(a: Pos, b: Pos): Walls {
    if a.i == b.i then Walls(set j | Min(a.j, b.j) <= j < Max(a.j, b.j) :: Pos(a.i, j), {})
    else if a.j == b.j then Walls({}, set i | Min(a.i, b.i) <= i < Max(a.i, b.i) :: Pos(i, a.j))
    else NO_WALLS
  }

  function Joined(v: Walls, w: Walls): Walls {
    Walls(v.left + w.left, v.bottom + w.bottom)
  }

  /** The walls along a path of corners. */
  ghost function PathWalls(path: seq<Pos>): Walls {
    if |path| < 2 then NO_WALLS else Joined(SegmentWalls(path[0], path[1]), PathWalls(path[1..]))
  }
}
