/** The walk along the boundary of a block of equal cells. */
module BoundaryWalk {
  import opened Prelude
  import opened Cells
  import opened Reachability
  import opened Slices

  /** One side of a cell, walked with the cell on the left. */
  datatype Side = Side(cell: Pos, dir: Dir)

  /** The corner where a side begins. */
  function StartOf(e: Side): Pos {
    match e.dir
    case BottomEdge => e.cell
    case RightEdge => Pos(e.cell.i + 1, e.cell.j)
    case TopEdge => Pos(e.cell.i + 1, e.cell.j + 1)
    case LeftEdge => Pos(e.cell.i, e.cell.j + 1)
  }

  /** The corner where a side ends. */
  function EndOf(e: Side): Pos {
    match e.dir
    case BottomEdge => Pos(e.cell.i + 1, e.cell.j)
    case RightEdge => Pos(e.cell.i + 1, e.cell.j + 1)
    case TopEdge => Pos(e.cell.i, e.cell.j + 1)
    case LeftEdge => e.cell
  }

  /** A side joins the two corners that its cell shares with the cell across, and has its cell on the left. */
  lemma SideOfCell(e: Side)
    ensures {StartOf(e), EndOf(e)} == CellCorners(e.cell) * CellCorners(Across(e.cell, e.dir))
    ensures
      var a, b, p := StartOf(e), EndOf(e), e.cell;
      (b.i - a.i) * (2 * (p.j - a.j) + 1) - (b.j - a.j) * (2 * (p.i - a.i) + 1) > 0
  {
  }

  /** The sides that may follow a side, in the order in which they are tried: left, straight on, right. */
  function TurnLeft(e: Side): Side {
    match e.dir
    case BottomEdge => Side(e.cell, RightEdge)
    case RightEdge => Side(e.cell, TopEdge)
    case TopEdge => Side(e.cell, LeftEdge)
    case LeftEdge => Side(e.cell, BottomEdge)
  }

  function StraightOn(e: Side): Side {
    match e.dir
    case BottomEdge => Side(Pos(e.cell.i + 1, e.cell.j), BottomEdge)
    case RightEdge => Side(Pos(e.cell.i, e.cell.j + 1), RightEdge)
    case TopEdge => Side(Pos(e.cell.i - 1, e.cell.j), TopEdge)
    case LeftEdge => Side(Pos(e.cell.i, e.cell.j - 1), LeftEdge)
  }

  function TurnRight(e: Side): Side {
    match e.dir
    case BottomEdge => Side(Pos(e.cell.i + 1, e.cell.j - 1), LeftEdge)
    case RightEdge => Side(Pos(e.cell.i + 1, e.cell.j + 1), BottomEdge)
    case TopEdge => Side(Pos(e.cell.i - 1, e.cell.j + 1), RightEdge)
    case LeftEdge => Side(Pos(e.cell.i - 1, e.cell.j - 1), TopEdge)
  }

  /** The side of a cell of value `v` that has no cell of that value on its other side; a zero cell counts as alone. */
  ghost predicate Boundary(values: map<Pos, int>, v: int, e: Side) {
    && e.cell in values && values[e.cell] == v
    && (v == 0 || Across(e.cell, e.dir) !in values || values[Across(e.cell, e.dir)] != v)
  }

  /** The boundary side that follows a boundary side. */
  ghost function Successor(values: map<Pos, int>, v: int, e: Side): Side {
    if Boundary(values, v, TurnLeft(e)) then TurnLeft(e)
    else if Boundary(values, v, StraightOn(e)) then StraightOn(e)
    else TurnRight(e)
  }

  /** The boundary side that comes before a boundary side. */
  ghost function Predecessor(values: map<Pos, int>, v: int, e: Side): Side {
    var back := match e.dir
      case BottomEdge => [Side(e.cell, LeftEdge), Side(Left(e.cell), BottomEdge), Side(Down(Left(e.cell)), RightEdge)]
      case RightEdge => [Side(e.cell, BottomEdge), Side(Down(e.cell), RightEdge), Side(Right(Down(e.cell)), TopEdge)]
      case TopEdge => [Side(e.cell, RightEdge), Side(Right(e.cell), TopEdge), Side(Up(Right(e.cell)), LeftEdge)]
      case LeftEdge => [Side(e.cell, TopEdge), Side(Up(e.cell), LeftEdge), Side(Left(Up(e.cell)), BottomEdge)];
    if Boundary(values, v, back[0]) then back[0]
    else if Boundary(values, v, back[1]) then back[1]
    else back[2]
  }

  /** The walk never gets stuck: every boundary side is followed by one that begins where it ends. */
  lemma SuccessorIsBoundary(values: map<Pos, int>, v: int, e: Side)
    requires Boundary(values, v, e)
    ensures Boundary(values, v, Successor(values, v, e))
    ensures StartOf(Successor(values, v, e)) == EndOf(e)
  {
  }

  /** The walk never merges: a boundary side is determined by the one that follows it. */
  lemma PredecessorOfSuccessor(values: map<Pos, int>, v: int, e: Side)
    requires Boundary(values, v, e)
    ensures Predecessor(values, v, Successor(values, v, e)) == e
  {
  }

  /** The walk stays in the block: the cells of consecutive sides are connected through cells of the same value. */
  lemma SuccessorIsConnected(values: map<Pos, int>, v: int, e: Side)
    requires Boundary(values, v, e)
    ensures Connected(NO_WALLS, Region(values, v), e.cell, Successor(values, v, e).cell)
  {
    var region, f := Region(values, v), Successor(values, v, e);
    SuccessorIsBoundary(values, v, e);
    ConnectedRefl(NO_WALLS, region, e.cell);
    if f == StraightOn(e) {
      ConnectedStep(NO_WALLS, region, e.cell, e.cell, f.cell);
    } else if f == TurnRight(e) {
      var side := StraightOn(e).cell;
      ConnectedStep(NO_WALLS, region, e.cell, e.cell, side);
      ConnectedStep(NO_WALLS, region, e.cell, side, f.cell);
    }
  }

  /** Walking one side after the other. */
  ghost predicate IsWalk(values: map<Pos, int>, v: int, walk: seq<Side>) {
    && (forall k :: 0 <= k < |walk| ==> Boundary(values, v, walk[k]))
    && (forall k :: 0 < k < |walk| ==> walk[k] == Successor(values, v, walk[k-1]))
  }

  /** A walk that has not come back to its first corner yet. */
  ghost predicate OpenWalk(values: map<Pos, int>, v: int, walk: seq<Side>) {
    && IsWalk(values, v, walk) && Distinct(walk)
    && forall k :: 0 <= k < |walk| ==> EndOf(walk[k]) != StartOf(walk[0])
  }

  /** A walk that comes back to its first corner for the first time at its end. */
  ghost predicate ClosedWalk(values: map<Pos, int>, v: int, walk: seq<Side>) {
    && walk != [] && IsWalk(values, v, walk) && Distinct(walk)
    && EndOf(walk[|walk|-1]) == StartOf(walk[0])
    && forall k :: 0 <= k < |walk| - 1 ==> EndOf(walk[k]) != StartOf(walk[0])
  }

  /** Going on from an open walk, one meets a side that is not on it yet. */
  lemma OpenWalkGoesOn(values: map<Pos, int>, v: int, walk: seq<Side>)
    requires walk != [] && OpenWalk(values, v, walk)
    ensures
      var next := Successor(values, v, walk[|walk|-1]);
      Boundary(values, v, next) && next !in walk && Distinct(walk + [next]) && IsWalk(values, v, walk + [next])
  {
    var last := walk[|walk|-1];
    var next := Successor(values, v, last);
    SuccessorIsBoundary(values, v, last);
    PredecessorOfSuccessor(values, v, last);
    hide Boundary, Successor, Predecessor, StartOf, EndOf;
    forall k | 0 <= k < |walk| ensures walk[k] != next {
      if k > 0 && walk[k] == next {
        PredecessorOfSuccessor(values, v, walk[k-1]);
      }
    }
  }

  ghost function BoundarySides(values: map<Pos, int>, v: int): set<Side> {
    set p, d: Dir | p in values && Boundary(values, v, Side(p, d)) :: Side(p, d)
  }

  /** The sides that have not been walked yet. */
  ghost function SidesLeft(values: map<Pos, int>, v: int, walk: seq<Side>): set<Side> {
    BoundarySides(values, v) - set e | e in walk
  }

  lemma FewerSidesLeft(values: map<Pos, int>, v: int, walk: seq<Side>, e: Side)
    requires Boundary(values, v, e) && Distinct(walk + [e])
    ensures SidesLeft(values, v, walk + [e]) < SidesLeft(values, v, walk)
  {
    var longer := walk + [e];
    forall k | 0 <= k < |walk| ensures walk[k] != e {
      assert longer[k] != longer[|walk|];
    }
    assert e in BoundarySides(values, v) by { assert Boundary(values, v, Side(e.cell, e.dir)); }
    assert e in SidesLeft(values, v, walk);
    assert e !in SidesLeft(values, v, walk + [e]);
  }

  /** A walk that has not passed its first corner again, walked on until it comes back there. */
  ghost function WalkedOn(values: map<Pos, int>, v: int, walk: seq<Side>): (w: seq<Side>)
    requires walk != [] && IsWalk(values, v, walk) && Distinct(walk)
    requires forall k :: 0 <= k < |walk| - 1 ==> EndOf(walk[k]) != StartOf(walk[0])
    ensures ClosedWalk(values, v, w) && w[0] == walk[0]
    decreases SidesLeft(values, v, walk)
  {
    hide Boundary, Successor, StartOf, EndOf, SidesLeft;
    var last := walk[|walk|-1];
    if EndOf(last) == StartOf(walk[0]) then walk
    else
      var next := Successor(values, v, last);
      OpenWalkGoesOn(values, v, walk);
      FewerSidesLeft(values, v, walk, next);
      WalkedOn(values, v, walk + [next])
  }

  /** The walk along the boundary that starts with a given side and ends when it is back at its first corner. */
  ghost function TrueWalk(values: map<Pos, int>, v: int, e: Side): (walk: seq<Side>)
    requires Boundary(values, v, e)
    ensures ClosedWalk(values, v, walk) && walk[0] == e
  {
    WalkedOn(values, v, [e])
  }

  predicate OneApart(a: Pos, b: Pos) {
    Adjacent(a, b)
  }

  lemma SideIsUnit(e: Side)
    ensures OneApart(StartOf(e), EndOf(e))
  {
  }

  /** All cells along a walk lie in the block of its first cell. */
  lemma {:induction false} WalkInBlock(values: map<Pos, int>, v: int, walk: seq<Side>, k: nat)
    requires IsWalk(values, v, walk) && k < |walk|
    ensures walk[k].cell in Component(NO_WALLS, Region(values, v), walk[0].cell)
  {
    var region := Region(values, v);
    if k == 0 {
      ConnectedRefl(NO_WALLS, region, walk[0].cell);
    } else {
      WalkInBlock(values, v, walk, k - 1);
      SuccessorIsConnected(values, v, walk[k-1]);
      ConnectedTrans(NO_WALLS, region, walk[0].cell, walk[k-1].cell, walk[k].cell);
    }
  }
}
