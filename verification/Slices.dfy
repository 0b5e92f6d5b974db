/** The value of a layer: its cells with their cached edge values and barrier flags, and the sum of its cells. */
module Slices {
  import opened Cells

  datatype Dir = RightEdge | LeftEdge | TopEdge | BottomEdge

  /** The cached edge values of a cell, one for each side. */
  datatype Edges = Edges(right: int, left: int, top: int, bottom: int) {
    function Get(d: Dir): int {
      match d
      case RightEdge => right
      case LeftEdge => left
      case TopEdge => top
      case BottomEdge => bottom
    }

    function Set(d: Dir, x: int): Edges {
      match d
      case RightEdge => this.(right := x)
      case LeftEdge => this.(left := x)
      case TopEdge => this.(top := x)
      case BottomEdge => this.(bottom := x)
    }
  }

  const ALL_SIDES := {RightEdge, LeftEdge, TopEdge, BottomEdge}

  const NO_EDGES := Edges(0, 0, 0, 0)

  datatype Cell = Cell(value: int, edges: Edges, bottomBarrier: bool, leftBarrier: bool, active: bool)

  const EMPTY_CELL := Cell(0, NO_EDGES, false, false, true)

  function Opposite(d: Dir): Dir {
    match d
    case RightEdge => LeftEdge
    case LeftEdge => RightEdge
    case TopEdge => BottomEdge
    case BottomEdge => TopEdge
  }

  /** The cell on the other side of an edge. */
  function Across(p: Pos, d: Dir): Pos {
    match d
    case RightEdge => Right(p)
    case LeftEdge => Left(p)
    case TopEdge => Up(p)
    case BottomEdge => Down(p)
  }

  /** Right and bottom edges carry the value of the cell, left and top edges its negation. */
  function Signed(d: Dir, value: int): int {
    if d == RightEdge || d == BottomEdge then value else -value
  }

  /** A slice of nx * ny interior cells, padded with one more column and row of cells that only carry barrier flags. */
  datatype Slice = Slice(nx: nat, ny: nat, grid: map<Pos, Cell>) {

    ghost predicate Wf() {
      grid.Keys == Box(nx + 1, ny + 1)
    }

    ghost function Values(): (values: map<Pos, int>)
      requires Wf()
      ensures values.Keys == Box(nx, ny)
    {
      map p | p in Box(nx, ny) :: grid[p].value
    }

    ghost function Barriers(): Walls {
      Walls(set p | p in grid && grid[p].leftBarrier, set p | p in grid && grid[p].bottomBarrier)
    }

    /** The neighbour of `p` across `d` is an interior cell with the given value. */
    ghost predicate NeighbourHas(p: Pos, d: Dir, value: int)
      requires Wf()
    {
      InBox(nx, ny, Across(p, d)) && grid[Across(p, d)].value == value
    }

    /** The edge value of cell `q` once `p` holds `v` and the sides of `p` in `done` have been updated. */
    ghost function EdgeAfter(p: Pos, v: int, done: set<Dir>, q: Pos, d: Dir): int
      requires Wf() && InBox(nx, ny, p) && q in grid
    {
      if q == p && d in done then (if NeighbourHas(p, d, v) then 0 else Signed(d, v))
      else if Opposite(d) in done && Across(q, d) == p && InBox(nx, ny, q) && grid[q].value == v then 0
      else grid[q].edges.Get(d)
    }

    /** `t` is this slice after cell `p` was given the value `v` and the sides of `p` in `done` were updated. */
    ghost predicate Written(t: Slice, p: Pos, v: int, done: set<Dir>)
      requires Wf() && InBox(nx, ny, p)
    {
      && t.nx == nx && t.ny == ny && t.Wf()
      && (forall q :: q in grid ==>
            t.grid[q] == grid[q].(value := if q == p then v else grid[q].value, edges := t.grid[q].edges))
      && (forall q, d: Dir :: q in grid ==> t.grid[q].edges.Get(d) == EdgeAfter(p, v, done, q, d))
    }

    /** `t` is this slice after cell `p` was given the value `v`. */
    ghost predicate CellSet(t: Slice, p: Pos, v: int)
      requires Wf() && InBox(nx, ny, p)
    {
      Written(t, p, v, ALL_SIDES)
    }

    /** The exact edge value: zero if the neighbour agrees, and the signed value of the cell if not. */
    ghost function ExactEdge(p: Pos, d: Dir): int
      requires Wf() && InBox(nx, ny, p)
    {
      if NeighbourHas(p, d, grid[p].value) then 0 else Signed(d, grid[p].value)
    }

    /** Every edge of an interior cell is exact, and the padding has no edges. */
    ghost predicate ExactEdges()
      requires Wf()
    {
      && (forall p, d: Dir :: InBox(nx, ny, p) ==> grid[p].edges.Get(d) == ExactEdge(p, d))
      && PlainPadding()
    }

    ghost predicate LooseEdge(p: Pos, d: Dir)
      requires Wf() && InBox(nx, ny, p)
    {
      var e := grid[p].edges.Get(d);
      (e == 0 || e == Signed(d, grid[p].value)) && (NeighbourHas(p, d, grid[p].value) ==> e == 0)
    }

    /** Every edge is zero or the signed value of its cell, and zero between two cells that agree. */
    ghost predicate LooseEdges()
      requires Wf()
    {
      && (forall p, d: Dir :: InBox(nx, ny, p) ==> LooseEdge(p, d))
      && PlainPadding()
    }

    ghost predicate PlainPadding()
      requires Wf()
    {
      forall p :: p in grid && !InBox(nx, ny, p) ==> grid[p].edges == NO_EDGES
    }
  }

  /** The cells with a given value. */
  ghost function Region(values: map<Pos, int>, v: int): set<Pos> {
    set p | p in values && values[p] == v
  }

  /** The values with the cells of `s` painted over. */
  ghost function Painted(values: map<Pos, int>, s: set<Pos>, v: int): map<Pos, int> {
    map p | p in values :: if p in s then v else values[p]
  }

  lemma AcrossBack(p: Pos, q: Pos, d: Dir)
    ensures Across(q, d) == p <==> Across(p, Opposite(d)) == q
    ensures Across(p, d) != p
  {
  }

  /** A cell write changes that one value and no barrier. */
  lemma CellSetValues(s: Slice, t: Slice, p: Pos, v: int)
    requires s.Wf() && InBox(s.nx, s.ny, p) && s.CellSet(t, p, v)
    ensures t.Values() == s.Values()[p := v]
    ensures t.Barriers() == s.Barriers()
  {
    assert t.Barriers().left == s.Barriers().left;
    assert t.Barriers().bottom == s.Barriers().bottom;
  }

  lemma CellSetKeepsPadding(s: Slice, t: Slice, p: Pos, v: int)
    requires s.Wf() && InBox(s.nx, s.ny, p) && s.CellSet(t, p, v) && s.PlainPadding()
    ensures t.PlainPadding()
  {
    forall q | q in t.grid && !InBox(t.nx, t.ny, q) ensures t.grid[q].edges == NO_EDGES {
      assert t.grid[q].edges.Get(RightEdge) == 0;
      assert t.grid[q].edges.Get(LeftEdge) == 0;
      assert t.grid[q].edges.Get(TopEdge) == 0;
      assert t.grid[q].edges.Get(BottomEdge) == 0;
    }
  }

  lemma CellSetKeepsLooseEdge(s: Slice, t: Slice, p: Pos, v: int, q: Pos, d: Dir)
    requires s.Wf() && InBox(s.nx, s.ny, p) && s.CellSet(t, p, v) && InBox(s.nx, s.ny, q)
    requires s.LooseEdge(q, d)
    ensures t.LooseEdge(q, d)
  {
    assert t.grid[q].edges.Get(d) == s.EdgeAfter(p, v, ALL_SIDES, q, d);
    AcrossBack(p, q, d);
    var r := Across(q, d);
    assert r in s.grid ==> t.grid[r].value == if r == p then v else s.grid[r].value;
  }

  /** Every cell write keeps the loose edge invariant. */
  lemma CellSetKeepsLooseEdges(s: Slice, t: Slice, p: Pos, v: int)
    requires s.Wf() && InBox(s.nx, s.ny, p) && s.CellSet(t, p, v)
    requires s.LooseEdges()
    ensures t.LooseEdges()
  {
    CellSetKeepsPadding(s, t, p, v);
    forall q, d: Dir | InBox(s.nx, s.ny, q) ensures t.LooseEdge(q, d) {
      assert s.LooseEdge(q, d);
      CellSetKeepsLooseEdge(s, t, p, v, q, d);
    }
  }

  /** The one way a write can spoil an exact edge: a neighbour that shared the old value has to get its edge back. */
  lemma CellSetExactEdge(s: Slice, t: Slice, p: Pos, v: int, q: Pos, d: Dir)
    requires s.Wf() && InBox(s.nx, s.ny, p) && s.CellSet(t, p, v) && InBox(s.nx, s.ny, q)
    requires s.grid[q].edges.Get(d) == s.ExactEdge(q, d)
    ensures t.grid[q].edges.Get(d) == t.ExactEdge(q, d) <==>
            !(Across(q, d) == p && s.grid[q].value == s.grid[p].value && s.grid[p].value != 0 && s.grid[p].value != v)
  {
    assert t.grid[q].edges.Get(d) == s.EdgeAfter(p, v, ALL_SIDES, q, d);
    AcrossBack(p, q, d);
    var r := Across(q, d);
    assert r in s.grid ==> t.grid[r].value == if r == p then v else s.grid[r].value;
  }

  /**
   * A cell write keeps the edges exact just when no neighbour has to get an edge back: the cell was zero, or
   * keeps its value, or shared its old value with no neighbour.
   */
  lemma CellSetKeepsExactEdges(s: Slice, t: Slice, p: Pos, v: int)
    requires s.Wf() && InBox(s.nx, s.ny, p) && s.CellSet(t, p, v)
    requires s.ExactEdges()
    ensures t.ExactEdges() <==>
            (s.grid[p].value == 0 || s.grid[p].value == v || forall d: Dir :: !s.NeighbourHas(p, d, s.grid[p].value))
  {
    CellSetKeepsPadding(s, t, p, v);
    var u := s.grid[p].value;
    if u != 0 && u != v && exists d: Dir :: s.NeighbourHas(p, d, u) {
      var d: Dir :| s.NeighbourHas(p, d, u);
      var q := Across(p, d);
      AcrossBack(q, p, d);
      assert s.grid[q].edges.Get(Opposite(d)) == s.ExactEdge(q, Opposite(d));
      CellSetExactEdge(s, t, p, v, q, Opposite(d));
      assert t.grid[q].edges.Get(Opposite(d)) != t.ExactEdge(q, Opposite(d));
    } else {
      forall q, d: Dir | InBox(s.nx, s.ny, q) ensures t.grid[q].edges.Get(d) == t.ExactEdge(q, d) {
        assert s.grid[q].edges.Get(d) == s.ExactEdge(q, d);
        CellSetExactEdge(s, t, p, v, q, d);
        AcrossBack(p, q, d);
        assert !s.NeighbourHas(p, Opposite(d), u) || u == 0 || u == v;
      }
    }
  }

  /** The sum of the interior cells: of the first `n` cells of row `j`, and of the first `m` rows. */
  ghost function RowSum(values: map<Pos, int>, j: int, n: nat): int
    requires forall i :: 0 <= i < n ==> Pos(i, j) in values
  {
    if n == 0 then 0 else RowSum(values, j, n - 1) + values[Pos(n - 1, j)]
  }

  ghost function Total(values: map<Pos, int>, nx: nat, m: nat): int
    requires forall i, j :: 0 <= i < nx && 0 <= j < m ==> Pos(i, j) in values
  {
    if m == 0 then 0 else Total(values, nx, m - 1) + RowSum(values, m - 1, nx)
  }

  lemma {:induction false} RowSumUpdate(values: map<Pos, int>, j: int, n: nat, p: Pos, v: int)
    requires p in values && forall i :: 0 <= i < n ==> Pos(i, j) in values
    ensures RowSum(values[p := v], j, n) ==
            RowSum(values, j, n) + (if p.j == j && 0 <= p.i < n then v - values[p] else 0)
  {
    if n > 0 { RowSumUpdate(values, j, n - 1, p, v); }
  }

  /** Changing one cell changes the sum by the difference. */
  lemma {:induction false} TotalUpdate(values: map<Pos, int>, nx: nat, m: nat, p: Pos, v: int)
    requires p in values && forall i, j :: 0 <= i < nx && 0 <= j < m ==> Pos(i, j) in values
    ensures Total(values[p := v], nx, m) == Total(values, nx, m) + (if InBox(nx, m, p) then v - values[p] else 0)
  {
    if m > 0 {
      TotalUpdate(values, nx, m - 1, p, v);
      RowSumUpdate(values, m - 1, nx, p, v);
    }
  }

  lemma {:induction false} RowSumConstant(values: map<Pos, int>, j: int, n: nat, v: int)
    requires forall i :: 0 <= i < n ==> Pos(i, j) in values && values[Pos(i, j)] == v
    ensures RowSum(values, j, n) == v * n
  {
    if n > 0 { RowSumConstant(values, j, n - 1, v); }
  }

  lemma {:induction false} TotalConstant(values: map<Pos, int>, nx: nat, m: nat, v: int)
    requires forall i, j :: 0 <= i < nx && 0 <= j < m ==> Pos(i, j) in values && values[Pos(i, j)] == v
    ensures Total(values, nx, m) == v * nx * m
  {
    if m > 0 {
      TotalConstant(values, nx, m - 1, v);
      RowSumConstant(values, m - 1, nx, v);
      assert v * nx * m == v * nx * (m - 1) + v * nx;
    }
  }
}
