/** When a walk along the boundary, which stops at its first corner, has gone round the whole loop. */
module BoundaryLoop {
  import opened Prelude
  import opened Cells
  import opened Reachability
  import opened Slices
  import opened BoundaryWalk

  ghost predicate InBlock(values: map<Pos, int>, v: int, p: Pos) {
    p in values && values[p] == v
  }

  /** Of the four cells around a corner just two opposite ones have the value: the block is pinched there. */
  ghost predicate Pinched(values: map<Pos, int>, v: int, c: Pos) {
    || (InBlock(values, v, c) && InBlock(values, v, Down(Left(c))) && !InBlock(values, v, Left(c)) &&
        !InBlock(values, v, Down(c)))
    || (InBlock(values, v, Left(c)) && InBlock(values, v, Down(c)) && !InBlock(values, v, c) &&
        !InBlock(values, v, Down(Left(c))))
  }

  /** From a corner that is not pinched only one boundary side starts. */
  lemma OneSideStarts(values: map<Pos, int>, v: int, e: Side, f: Side)
    requires v != 0 && Boundary(values, v, e) && Boundary(values, v, f) && StartOf(e) == StartOf(f) &&
             !Pinched(values, v, StartOf(e))
    ensures e == f
  {
  }

  /** At a pinched corner the walk turns left round its own cell, and each cell has just one side that starts there. */
  lemma PinchTurnsLeft(values: map<Pos, int>, v: int, e: Side, f: Side)
    requires v != 0 && Boundary(values, v, e) && Pinched(values, v, EndOf(e)) && Boundary(values, v, f) &&
             StartOf(f) == EndOf(e)
    ensures Successor(values, v, e) == f <==> f.cell == e.cell
  {
  }

  /** Whether an odd number of the sides of a walk have a property. */
  ghost predicate Odd(walk: seq<Side>, f: Side -> bool) {
    walk != [] && (Odd(walk[..|walk|-1], f) != f(walk[|walk|-1]))
  }

  lemma {:induction false} OddXor(walk: seq<Side>, f: Side -> bool, g: Side -> bool, h: Side -> bool)
    requires forall e :: e in walk ==> f(e) == (g(e) != h(e))
    ensures Odd(walk, f) == (Odd(walk, g) != Odd(walk, h))
  {
    if walk != [] { OddXor(walk[..|walk|-1], f, g, h); }
  }

  lemma {:induction false} OddNone(walk: seq<Side>, f: Side -> bool)
    requires forall e :: e in walk ==> !f(e)
    ensures !Odd(walk, f)
  {
    if walk != [] { OddNone(walk[..|walk|-1], f); }
  }

  lemma {:induction false} OddOnce(walk: seq<Side>, f: Side -> bool, m: nat)
    requires m < |walk| && f(walk[m])
    requires forall k :: 0 <= k < |walk| && k != m ==> !f(walk[k])
    ensures Odd(walk, f)
  {
    var front := walk[..|walk|-1];
    if m == |walk| - 1 { OddNone(front, f); } else { OddOnce(front, f, m); }
  }

  /**
   * A walk that comes back to its first corner changes an odd number of times from corners of a kind to others: never.
   */
  lemma {:induction false} OddChanges(walk: seq<Side>, h: Pos -> bool)
    requires forall k :: 0 < k < |walk| ==> StartOf(walk[k]) == EndOf(walk[k-1])
    ensures Odd(walk, e => h(StartOf(e)) != h(EndOf(e))) ==
            (walk != [] && h(StartOf(walk[0])) != h(EndOf(walk[|walk|-1])))
  {
    hide StartOf, EndOf;
    if |walk| > 1 { OddChanges(walk[..|walk|-1], h); }
  }

  /** An upright side in the row of a cell, at its left side or further left. */
  predicate IsBeside(e: Side, p: Pos) {
    || (e.dir == LeftEdge && e.cell.j == p.j && e.cell.i <= p.i)
    || (e.dir == RightEdge && e.cell.j == p.j && e.cell.i < p.i)
  }

  /** Whether the walk has an odd number of upright sides to the left of a cell: the cell lies inside of the loop. */
  ghost predicate Inside(walk: seq<Side>, p: Pos) {
    Odd(walk, e => IsBeside(e, p))
  }

  /** Two neighbours in a row lie on the same side of the loop, unless it passes between them. */
  lemma SameInRow(walk: seq<Side>, p: Pos)
    requires Side(p, RightEdge) !in walk && Side(Right(p), LeftEdge) !in walk
    ensures Inside(walk, p) == Inside(walk, Right(p))
  {
    hide IsBeside;
    forall e | e in walk ensures IsBeside(e, p) == IsBeside(e, Right(p)) { BetweenInRow(e, p); }
    OddNone(walk, e => false);
    OddXor(walk, e => IsBeside(e, p), e => IsBeside(e, Right(p)), e => false);
  }

  /** Where the loop passes once between two neighbours in a row, they lie on different sides. */
  lemma DifferentInRow(walk: seq<Side>, p: Pos, e: Side)
    requires Distinct(walk) && e in walk && e in {Side(p, RightEdge), Side(Right(p), LeftEdge)}
    requires forall f :: f in walk && f in {Side(p, RightEdge), Side(Right(p), LeftEdge)} ==> f == e
    ensures Inside(walk, p) != Inside(walk, Right(p))
  {
    var m :| 0 <= m < |walk| && walk[m] == e;
    hide IsBeside;
    forall f | f in walk ensures (f == e) == (IsBeside(f, p) != IsBeside(f, Right(p))) { BetweenInRow(f, p); }
    OddOnce(walk, f => f == e, m);
    OddXor(walk, f => f == e, f => IsBeside(f, p), f => IsBeside(f, Right(p)));
  }

  /** A corner at the height of the upper side of a cell, at its left corner or further left. */
  predicate IsAbove(c: Pos, p: Pos) {
    c.j == p.j + 1 && c.i <= p.i
  }

  lemma BesideOneOfTwo(e: Side, p: Pos)
    requires e != Side(p, TopEdge) && e != Side(Up(p), BottomEdge)
    ensures IsAbove(StartOf(e), p) != IsAbove(EndOf(e), p) <==> IsBeside(e, p) != IsBeside(e, Up(p))
  {
  }

  lemma BetweenInRow(e: Side, p: Pos)
    ensures IsBeside(e, p) != IsBeside(e, Right(p)) <==> e in {Side(p, RightEdge), Side(Right(p), LeftEdge)}
  {
  }

  /** Two neighbours in a column lie on the same side of a closed loop, unless it passes between them. */
  lemma SameInColumn(values: map<Pos, int>, v: int, walk: seq<Side>, p: Pos)
    requires ClosedWalk(values, v, walk) && Side(p, TopEdge) !in walk && Side(Up(p), BottomEdge) !in walk
    ensures Inside(walk, p) == Inside(walk, Up(p))
  {
    hide StartOf, EndOf, IsBeside;
    var h := (c: Pos) => IsAbove(c, p);
    ClosedWalkIsChain(values, v, walk);
    OddChanges(walk, h);
    forall e | e in walk ensures (h(StartOf(e)) != h(EndOf(e))) == (IsBeside(e, p) != IsBeside(e, Up(p))) {
      BesideOneOfTwo(e, p);
    }
    OddXor(walk, e => h(StartOf(e)) != h(EndOf(e)), e => IsBeside(e, p), e => IsBeside(e, Up(p)));
  }

  lemma ClosedWalkIsChain(values: map<Pos, int>, v: int, walk: seq<Side>)
    requires ClosedWalk(values, v, walk)
    ensures forall k :: 0 < k < |walk| ==> StartOf(walk[k]) == EndOf(walk[k-1])
  {
    hide Boundary, Successor, StartOf, EndOf;
    forall k | 0 < k < |walk| ensures StartOf(walk[k]) == EndOf(walk[k-1]) {
      SuccessorIsBoundary(values, v, walk[k-1]);
    }
  }

  /** Linked cells of the block lie on the same side of the loop: no boundary passes between them. */
  lemma SameInBlock(values: map<Pos, int>, v: int, walk: seq<Side>, p: Pos, q: Pos)
    requires v != 0 && ClosedWalk(values, v, walk)
    requires InBlock(values, v, p) && InBlock(values, v, q) && Adjacent(p, q)
    ensures Inside(walk, p) == Inside(walk, q)
  {
    hide Successor, StartOf, EndOf, Inside;
    forall d: Dir | Across(p, d) == q ensures Side(p, d) !in walk && Side(q, Opposite(d)) !in walk {
      assert !Boundary(values, v, Side(p, d));
      assert !Boundary(values, v, Side(q, Opposite(d)));
    }
    if q == Right(p) {
      assert Across(p, RightEdge) == q;
      SameInRow(walk, p);
    } else if q == Left(p) {
      assert Across(p, LeftEdge) == q;
      SameInRow(walk, q);
    } else if q == Up(p) {
      assert Across(p, TopEdge) == q;
      SameInColumn(values, v, walk, p);
    } else {
      assert Across(p, BottomEdge) == q;
      SameInColumn(values, v, walk, q);
    }
  }

  /** All cells of one block lie on the same side of the loop. */
  lemma SameInComponent(values: map<Pos, int>, v: int, walk: seq<Side>, a: Pos, b: Pos)
    requires v != 0 && ClosedWalk(values, v, walk) && InBlock(values, v, a)
    requires b in Component(NO_WALLS, Region(values, v), a)
    ensures Inside(walk, a) == Inside(walk, b)
  {
    hide Boundary, Inside, ClosedWalk, Component, Linked;
    var region := Region(values, v);
    var same := set p | p in region && Inside(walk, p) == Inside(walk, a);
    forall p, q | p in same && q in region && Linked(NO_WALLS, p, q) ensures q in same {
      SameInBlock(values, v, walk, p, q);
    }
    ComponentInClosed(NO_WALLS, region, same, a);
  }

  /** The cell that lies opposite to `a` around the corner `c`. */
  function Opposed(a: Pos, c: Pos): Pos {
    Pos(2 * c.i - 1 - a.i, 2 * c.j - 1 - a.j)
  }

  /** A closed walk passes its first corner once. */
  lemma FirstCornerOnce(values: map<Pos, int>, v: int, walk: seq<Side>, e: Side)
    requires ClosedWalk(values, v, walk) && e in walk
    ensures StartOf(e) == StartOf(walk[0]) ==> e == walk[0]
    ensures EndOf(e) == StartOf(walk[0]) ==> e == walk[|walk|-1]
  {
    ClosedWalkIsChain(values, v, walk);
    hide Boundary, Successor, StartOf, EndOf;
    var k :| 0 <= k < |walk| && walk[k] == e;
    if k > 0 { assert EndOf(walk[k-1]) == StartOf(e); }
  }

  /** A closed walk that has come back to a pinched corner on its own cell has the opposite cell on its other side. */
  lemma PinchedApart(values: map<Pos, int>, v: int, walk: seq<Side>)
    requires v != 0 && ClosedWalk(values, v, walk) && Pinched(values, v, StartOf(walk[0]))
    requires walk[|walk|-1].cell == walk[0].cell
    ensures Inside(walk, walk[0].cell) != Inside(walk, Opposed(walk[0].cell, StartOf(walk[0])))
  {
    var a, c, last := walk[0].cell, StartOf(walk[0]), walk[|walk|-1];
    var b := Opposed(a, c);
    var d := Pos(b.i, a.j);
    assert Boundary(values, v, walk[0]) && Boundary(values, v, last) && last in walk;
    assert InBlock(values, v, a) && InBlock(values, v, b) && !InBlock(values, v, d);
    forall e | e in walk ensures e.cell != d && (StartOf(e) == c ==> e == walk[0]) && (EndOf(e) == c ==> e == last) {
      assert Boundary(values, v, e);
      FirstCornerOnce(values, v, walk, e);
    }
    hide Boundary, Successor, Inside, Pinched, ClosedWalk, InBlock;
    match walk[0].dir
    case BottomEdge =>
      DifferentInRow(walk, d, last);
      SameInColumn(values, v, walk, b);
    case RightEdge =>
      DifferentInRow(walk, a, walk[0]);
      SameInColumn(values, v, walk, b);
    case TopEdge =>
      DifferentInRow(walk, a, last);
      SameInColumn(values, v, walk, d);
    case LeftEdge =>
      DifferentInRow(walk, d, walk[0]);
      SameInColumn(values, v, walk, d);
  }

  /** The cells that touch a pinched corner from the block are those of any side that ends there. */
  lemma PinchedCells(values: map<Pos, int>, v: int, e: Side, f: Side)
    requires v != 0 && Boundary(values, v, e) && Boundary(values, v, f)
    requires EndOf(e) == StartOf(f) && Pinched(values, v, StartOf(f))
    ensures e.cell == f.cell || e.cell == Opposed(f.cell, StartOf(f))
  {
  }

  /**
   * The walk stops when it is back at its first corner. This closes the whole loop of the boundary, in that the side
   * that would come next is the first one, unless the block is pinched there and the two cells that touch at the
   * corner belong to one block. A walk round a zero cell, which counts as alone, is always a whole loop.
   */
  lemma WholeLoop(values: map<Pos, int>, v: int, walk: seq<Side>)
    requires ClosedWalk(values, v, walk)
    ensures
      var a, c := walk[0].cell, StartOf(walk[0]);
      Successor(values, v, walk[|walk|-1]) == walk[0] <==>
        v == 0 || !Pinched(values, v, c) || Opposed(a, c) !in Component(NO_WALLS, Region(values, v), a)
  {
    var a, c, last := walk[0].cell, StartOf(walk[0]), walk[|walk|-1];
    BoundaryIsInBlock(values, v, walk[0]);
    hide Boundary, Successor, Pinched, StartOf, EndOf, InBlock, Inside, Opposed, Component;
    if v == 0 {
      ZeroWalkStays(values, walk, |walk| - 1);
      ZeroTurnsLeft(values, last, walk[0]);
    } else if !Pinched(values, v, c) {
      SuccessorIsBoundary(values, v, last);
      OneSideStarts(values, v, Successor(values, v, last), walk[0]);
    } else {
      PinchTurnsLeft(values, v, last, walk[0]);
      PinchedCells(values, v, last, walk[0]);
      if last.cell == a {
        PinchedApart(values, v, walk);
        if Opposed(a, c) in Component(NO_WALLS, Region(values, v), a) {
          SameInComponent(values, v, walk, a, Opposed(a, c));
        }
      } else {
        WalkInBlock(values, v, walk, |walk| - 1);
      }
    }
  }

  /** The walk round a zero cell stays at that cell. */
  lemma {:induction false} ZeroWalkStays(values: map<Pos, int>, walk: seq<Side>, k: nat)
    requires IsWalk(values, 0, walk) && k < |walk|
    ensures walk[k].cell == walk[0].cell
  {
    if k > 0 {
      ZeroWalkStays(values, walk, k - 1);
      assert Boundary(values, 0, TurnLeft(walk[k-1]));
    }
  }

  lemma ZeroTurnsLeft(values: map<Pos, int>, e: Side, f: Side)
    requires Boundary(values, 0, e) && e.cell == f.cell && EndOf(e) == StartOf(f)
    ensures Successor(values, 0, e) == f
  {
  }

  lemma BoundaryIsInBlock(values: map<Pos, int>, v: int, e: Side)
    requires Boundary(values, v, e)
    ensures InBlock(values, v, e.cell)
  {
  }

  /**
   * A right or bottom side of a cell, with no cell of the block in an earlier row, does not start at a pinched corner,
   * so the walk from there is a whole loop.
   */
  lemma LowestRowIsNotPinched(values: map<Pos, int>, v: int, e: Side)
    requires v != 0 && Boundary(values, v, e) && e.dir in {RightEdge, BottomEdge}
    requires forall q :: InBlock(values, v, q) ==> e.cell.j <= q.j
    ensures !Pinched(values, v, StartOf(e))
  {
    var c := StartOf(e);
    assert !InBlock(values, v, Down(c)) && !InBlock(values, v, Down(Left(c)));
  }

  /**
   * The first cell with a value, row by row, has nothing of it below, so the walk may start there and is a whole loop.
   */
  lemma FirstCellIsNotPinched(values: map<Pos, int>, v: int, p: Pos)
    requires v != 0 && InBlock(values, v, p) && forall q :: InBlock(values, v, q) ==> !Before(q, p)
    ensures Boundary(values, v, Side(p, BottomEdge)) && !Pinched(values, v, StartOf(Side(p, BottomEdge)))
  {
    assert Before(Down(p), p) && Before(Left(p), p) && Before(Down(Left(p)), p);
  }

  /** The cells of a block around a hole, open at one corner. */
  predicate AroundHole(p: Pos) {
    p in [Pos(1, 1), Pos(1, 0), Pos(2, 0), Pos(3, 0), Pos(3, 1), Pos(3, 2), Pos(2, 2)]
  }

  ghost function PinchedBlock(): map<Pos, int> {
    map p | p in Box(4, 3) :: if AroundHole(p) then 1 else 0
  }

  lemma PinchedBoundary(e: Side)
    ensures Boundary(PinchedBlock(), 1, e) <==> AroundHole(e.cell) && !AroundHole(Across(e.cell, e.dir))
  {
    assert forall p :: AroundHole(p) ==> InBox(4, 3, p);
  }

  lemma PinchedSuccessor(e: Side)
    ensures
      Successor(PinchedBlock(), 1, e) ==
        if AroundHole(TurnLeft(e).cell) && !AroundHole(Across(TurnLeft(e).cell, TurnLeft(e).dir)) then TurnLeft(e)
        else if AroundHole(StraightOn(e).cell) && !AroundHole(Across(StraightOn(e).cell, StraightOn(e).dir))
          then StraightOn(e)
        else TurnRight(e)
  {
    PinchedBoundary(TurnLeft(e));
    PinchedBoundary(StraightOn(e));
  }

  /** At a pinched corner the walk may stop early: here it has only been round the hole. */
  lemma PinchStopsWalk()
    ensures
      var walk :=
        [Side(Pos(2, 2), BottomEdge), Side(Pos(3, 1), LeftEdge), Side(Pos(2, 0), TopEdge), Side(Pos(1, 1), RightEdge)];
      ClosedWalk(PinchedBlock(), 1, walk) && Successor(PinchedBlock(), 1, walk[3]) != walk[0]
  {
    hide Boundary, Successor, PinchedBlock;
    var walk :=
      [Side(Pos(2, 2), BottomEdge), Side(Pos(3, 1), LeftEdge), Side(Pos(2, 0), TopEdge), Side(Pos(1, 1), RightEdge)];
    forall k | 0 <= k < 4 ensures Boundary(PinchedBlock(), 1, walk[k]) { PinchedBoundary(walk[k]); }
    assert Successor(PinchedBlock(), 1, walk[0]) == walk[1] by { PinchedSuccessor(walk[0]); }
    assert Successor(PinchedBlock(), 1, walk[1]) == walk[2] by { PinchedSuccessor(walk[1]); }
    assert Successor(PinchedBlock(), 1, walk[2]) == walk[3] by { PinchedSuccessor(walk[2]); }
    assert Successor(PinchedBlock(), 1, walk[3]) != walk[0] by { PinchedSuccessor(walk[3]); }
    hide AroundHole;
  }
}
