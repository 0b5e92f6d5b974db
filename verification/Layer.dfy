/** The layer object: an array of cells, updated in place, with its cached edges and cached cell sum. */
module Layers {
  import opened Cells
  import opened Slices

  class Layer {
    const nx: nat
    const ny: nat
    const cells: array2<Cell>
    var cellSum: int
    /** The value of the layer: what its array holds. */
    ghost var slice: Slice

    ghost predicate Tied()
      reads this, cells
    {
      && cells.Length0 == nx + 1 && cells.Length1 == ny + 1
      && slice.nx == nx && slice.ny == ny && slice.Wf()
      && forall p :: p in slice.grid ==> slice.grid[p] == cells[p.i, p.j]
    }

    /**
     * The cached sum is the sum of the interior cells, and the cached edges are never anything but zero or the value.
     */
    ghost predicate Valid()
      reads this, cells
      ensures Valid() ==> slice.Wf() && slice.nx == nx && slice.ny == ny
    {
      && Tied()
      && cellSum == Total(slice.Values(), nx, ny)
      && slice.LooseEdges()
    }

    constructor (nx: nat, ny: nat)
      ensures Valid() && fresh(cells)
      ensures this.nx == nx && this.ny == ny
      ensures slice == BlankSlice(nx, ny)
    {
      this.nx, this.ny, cellSum := nx, ny, 0;
      cells := new Cell[nx + 1, ny + 1]((i, j) => EMPTY_CELL);
      slice := BlankSlice(nx, ny);
      new;
      TotalConstant(slice.Values(), nx, ny, 0);
    }

    /** Writes one cell of the array. */
    method Put(i: int, j: int, c: Cell)
      requires Tied() && 0 <= i <= nx && 0 <= j <= ny
      modifies this`slice, cells
      ensures Tied()
      ensures slice == old(slice).(grid := old(slice).grid[Pos(i, j) := c])
    {
      cells[i, j] := c;
      slice := slice.(grid := slice.grid[Pos(i, j) := c]);
    }

    /** Updates one side of a cell: no edge towards a cell of the same value, whose edge is cancelled as well. */
    method UpdateSide(i: int, j: int, d: Dir)
      requires Tied() && 0 <= i < nx && 0 <= j < ny
      modifies this`slice, cells
      ensures Tied()
      ensures SideRefreshed(old(slice), slice, Pos(i, j), d)
    {
      ghost var s, p := slice, Pos(i, j);
      var value := cells[i, j].value;
      var q := Across(Pos(i, j), d);
      AcrossBack(p, p, d);
      assert p in s.grid && s.grid[p] == cells[i, j];
      hide Slice.Wf, Across, SideRefreshed;
      if 0 <= q.i < nx && 0 <= q.j < ny {
        assert q in slice.grid;
        if cells[q.i, q.j].value == value {
          Put(i, j, cells[i, j].(edges := cells[i, j].edges.Set(d, 0)));
          assert q in slice.grid;
          Put(q.i, q.j, cells[q.i, q.j].(edges := cells[q.i, q.j].edges.Set(Opposite(d), 0)));
          BothSides(s, slice, p, d);
          return;
        }
      }
      Put(i, j, cells[i, j].(edges := cells[i, j].edges.Set(d, Signed(d, value))));
      OneSide(s, slice, p, d);
    }

    /** Sets the value of a cell, its four edges and the edges of the neighbours that now agree with it. */
    method SetCellValue(i: int, j: int, value: int)
      requires Valid() && 0 <= i < nx && 0 <= j < ny
      modifies this`cellSum, this`slice, cells
      ensures Valid()
      ensures old(slice).CellSet(slice, Pos(i, j), value)
      ensures slice.Values() == old(slice).Values()[Pos(i, j) := value]
      ensures slice.Barriers() == old(slice).Barriers()
    {
      ghost var s, p := slice, Pos(i, j);
      cellSum := cellSum + (value - cells[i, j].value);
      assert p in s.grid;
      Put(i, j, cells[i, j].(value := value));
      ValueWritten(s, slice, p, value);
      UpdateSides(i, j, s, value);
      CellSetFacts(s, slice, p, value);
    }

    method UpdateSides(i: int, j: int, ghost s: Slice, ghost value: int)
      requires Tied() && 0 <= i < nx && 0 <= j < ny
      requires s.nx == nx && s.ny == ny && s.Wf() && s.Written(slice, Pos(i, j), value, {})
      modifies this`slice, cells
      ensures Tied()
      ensures s.CellSet(slice, Pos(i, j), value)
    {
      ghost var s0 := slice;
      UpdateSide(i, j, LeftEdge);
      ghost var s1 := slice;
      UpdateSide(i, j, RightEdge);
      ghost var s2 := slice;
      UpdateSide(i, j, TopEdge);
      ghost var s3 := slice;
      UpdateSide(i, j, BottomEdge);
      FourSides(s, s0, s1, s2, s3, slice, Pos(i, j), value);
    }

    method AssignCell(i: int, j: int, value: int)
      requires Tied() && 0 <= i < nx && 0 <= j < ny
      modifies this`slice, cells
      ensures Tied() && Pos(i, j) in old(slice).grid
      ensures slice == AssignedCell(old(slice), value, Pos(i, j))
    {
      assert Pos(i, j) in slice.grid;
      Put(i, j, cells[i, j].(value := value, edges := NO_EDGES));
    }

    method AssignCells(value: int)
      requires Tied()
      modifies this`slice, cells
      ensures Tied() && Assigned(old(slice), slice, value, Pos(0, ny))
    {
      ghost var s := slice;
      assert s.nx == nx && s.ny == ny && s.Wf();
      hide *;
      NothingAssigned(s, value);
      for j := 0 to ny
        invariant Tied() && Assigned(s, slice, value, Pos(0, j))
      {
        for i := 0 to nx
          invariant Tied() && Assigned(s, slice, value, Pos(i, j))
        {
          AssignedStep(s, slice, value, i, j);
          AssignCell(i, j, value);
        }
        AssignedNextRow(s, slice, value, j);
      }
    }

    /** Gives all interior cells the same value, without edges. */
    method Assign(value: int)
      requires Valid()
      modifies this`cellSum, this`slice, cells
      ensures Valid() && Assigned(old(slice), slice, value, Pos(0, ny))
    {
      AssignCells(value);
      cellSum := value * nx * ny;
      AssignedIsLoose(old(slice), slice, value);
    }

    method CopyCells(src: Layer)
      requires Valid() && src.Valid() && nx == src.nx && ny == src.ny
      modifies cells
      ensures forall x, y :: 0 <= x <= nx && 0 <= y <= ny ==> cells[x, y] == old(src.cells[x, y])
    {
      hide Slice.LooseEdges, Slice.Values, Total;
      for i := 0 to nx + 1
        invariant forall x, y :: 0 <= x <= nx && 0 <= y <= ny ==>
                  cells[x, y] == if x < i then old(src.cells[x, y]) else old(cells[x, y])
      {
        for j := 0 to ny + 1
          invariant forall x, y :: 0 <= x <= nx && 0 <= y <= ny ==>
                      cells[x, y] == if x < i || (x == i && y < j) then old(src.cells[x, y]) else old(cells[x, y])
        {
          cells[i, j] := src.cells[i, j];
        }
      }
    }

    /** Copies another layer. A layer of another size is refused. */
    method Memcpy(src: Layer) returns (ok: bool)
      requires Valid() && src.Valid()
      modifies this`cellSum, this`slice, cells
      ensures Valid()
      ensures ok == (nx == src.nx && ny == src.ny)
      ensures slice == if ok then old(src.slice) else old(slice)
    {
      hide Slice.LooseEdges, Slice.Values, Total;
      ok := nx == src.nx && ny == src.ny;
      if ok {
        ghost var s := src.slice;
        CopyCells(src);
        slice := src.slice;
        cellSum := src.cellSum;
        forall p | p in s.grid ensures s.grid[p] == cells[p.i, p.j] {
          assert InBox(nx + 1, ny + 1, p);
        }
      }
    }

    lemma IsCell(i: int, j: int)
      requires Valid() && 0 <= i < nx && 0 <= j < ny
      ensures Pos(i, j) in slice.Values()
    {
    }

    method CellValue(i: int, j: int) returns (value: int)
      requires Valid() && 0 <= i < nx && 0 <= j < ny
      ensures Pos(i, j) in slice.Values() && value == slice.Values()[Pos(i, j)]
    {
      assert InBox(nx + 1, ny + 1, Pos(i, j));
      return cells[i, j].value;
    }

    /** Two cells are in contact if they share a side without a barrier. */
    method CellContact(i1: int, j1: int, i2: int, j2: int) returns (contact: bool)
      requires Valid()
      requires 0 <= i1 < nx && 0 <= j1 < ny && 0 <= i2 < nx && 0 <= j2 < ny
      ensures contact == Linked(slice.Barriers(), Pos(i1, j1), Pos(i2, j2))
    {
      assert InBox(nx + 1, ny + 1, Pos(i1, j1)) && InBox(nx + 1, ny + 1, Pos(i2, j2));
      if (i1 - i2 == 1 || i2 - i1 == 1) && j1 == j2 {
        var i := if i1 < i2 then i2 else i1;
        return !cells[i, j1].leftBarrier;
      }
      if i1 == i2 && (j1 - j2 == 1 || j2 - j1 == 1) {
        var j := if j1 < j2 then j2 else j1;
        return !cells[i1, j].bottomBarrier;
      }
      return false;
    }

    /** Replaces one value by another in one cell. */
    method ReplaceCellValue(i: int, j: int, oldValue: int, newValue: int) returns (replaced: bool)
      requires Valid() && 0 <= i < nx && 0 <= j < ny
      modifies this`cellSum, this`slice, cells
      ensures Valid()
      ensures replaced == (old(slice).Values()[Pos(i, j)] == oldValue)
      ensures slice.Values() ==
              old(slice).Values()[Pos(i, j) := if replaced then newValue else old(slice).Values()[Pos(i, j)]]
      ensures slice.Barriers() == old(slice).Barriers()
      ensures oldValue == 0 && old(slice).ExactEdges() ==> slice.ExactEdges()
    {
      ghost var s, p := slice, Pos(i, j);
      assert p in s.grid;
      replaced := cells[i, j].value == oldValue;
      if replaced {
        SetCellValue(i, j, newValue);
        if oldValue == 0 && s.ExactEdges() { CellSetKeepsExactEdges(s, slice, p, newValue); }
      }
    }

    /** Replaces one value by another in every interior cell, and counts the replacements. */
    method ReplaceCellValues(oldValue: int, newValue: int) returns (count: nat)
      requires Valid()
      modifies this`cellSum, this`slice, cells
      ensures Valid()
      ensures slice.Values() == Replaced(old(slice).Values(), oldValue, newValue, Pos(0, ny))
      ensures slice.Barriers() == old(slice).Barriers()
      ensures count == |Region(old(slice).Values(), oldValue)|
      ensures oldValue == 0 && old(slice).ExactEdges() ==> slice.ExactEdges()
    {
      hide *;
      ghost var values, walls := slice.Values(), slice.Barriers();
      ghost var exact := oldValue == 0 && slice.ExactEdges();
      count := 0;
      ReplacedStart(values, nx, ny, oldValue, newValue);
      for j := 0 to ny
        invariant Valid() && slice.Barriers() == walls
        invariant slice.Values() == Replaced(values, oldValue, newValue, Pos(0, j))
        invariant count == |Found(values, oldValue, Pos(0, j))|
        invariant exact ==> slice.ExactEdges()
      {
        for i := 0 to nx
          invariant Valid() && slice.Barriers() == walls
          invariant slice.Values() == Replaced(values, oldValue, newValue, Pos(i, j))
          invariant count == |Found(values, oldValue, Pos(i, j))|
          invariant exact ==> slice.ExactEdges()
        {
          ReplacedStep(values, nx, ny, oldValue, newValue, i, j);
          var replaced := ReplaceCellValue(i, j, oldValue, newValue);
          if replaced { count := count + 1; }
        }
        ReplacedNextRow(values, nx, ny, oldValue, newValue, j);
      }
      FoundAll(values, nx, ny, oldValue);
    }
  }

  /** The values once the cells before `end` have been visited by a replacement of `o` by `n`. */
  ghost function Replaced(values: map<Pos, int>, o: int, n: int, end: Pos): map<Pos, int> {
    map p | p in values :: if Before(p, end) && values[p] == o then n else values[p]
  }

  ghost function Found(values: map<Pos, int>, o: int, end: Pos): set<Pos> {
    set p | p in values && Before(p, end) && values[p] == o
  }

  lemma ReplacedStart(values: map<Pos, int>, nx: nat, ny: nat, o: int, n: int)
    requires values.Keys == Box(nx, ny)
    ensures Replaced(values, o, n, Pos(0, 0)) == values && Found(values, o, Pos(0, 0)) == {}
  {
  }

  lemma ReplacedStep(values: map<Pos, int>, nx: nat, ny: nat, o: int, n: int, i: int, j: int)
    requires values.Keys == Box(nx, ny) && 0 <= i < nx && 0 <= j < ny
    ensures
      var p, next := Pos(i, j), Pos(i + 1, j);
      var now := Replaced(values, o, n, p);
      && p in values && p in now && now[p] == values[p]
      && Replaced(values, o, n, next) == now[p := if values[p] == o then n else values[p]]
      && |Found(values, o, next)| == |Found(values, o, p)| + if values[p] == o then 1 else 0
  {
    var p, next := Pos(i, j), Pos(i + 1, j);
    var found := Found(values, o, p);
    BeforeNext(i, j);
    hide Before;
    assert Found(values, o, next) == found + if values[p] == o then {p} else {};
    assert p !in found;
  }

  lemma FoundAll(values: map<Pos, int>, nx: nat, ny: nat, o: int)
    requires values.Keys == Box(nx, ny)
    ensures Found(values, o, Pos(0, ny)) == Region(values, o)
  {
  }

  lemma ReplacedNextRow(values: map<Pos, int>, nx: nat, ny: nat, o: int, n: int, j: int)
    requires values.Keys == Box(nx, ny)
    ensures Replaced(values, o, n, Pos(nx, j)) == Replaced(values, o, n, Pos(0, j + 1))
    ensures Found(values, o, Pos(nx, j)) == Found(values, o, Pos(0, j + 1))
  {
    BeforeNextRow(nx, ny, j);
    hide Before;
  }

  function BlankCell(p: Pos): Cell { EMPTY_CELL }

  ghost function BlankSlice(nx: nat, ny: nat): (s: Slice)
    ensures s.Wf() && s.ExactEdges()
  {
    Slice(nx, ny, map p | p in Box(nx + 1, ny + 1) :: BlankCell(p))
  }

  /** `t` is `s` with one side of cell `p` brought up to date with its neighbour. */
  ghost predicate SideRefreshed(s: Slice, t: Slice, p: Pos, d: Dir)
    requires s.Wf() && InBox(s.nx, s.ny, p)
  {
    var v := s.grid[p].value;
    var agree := s.NeighbourHas(p, d, v);
    && t.nx == s.nx && t.ny == s.ny && t.Wf()
    && forall q :: q in s.grid ==>
      t.grid[q] ==
        if q == p then s.grid[q].(edges := s.grid[q].edges.Set(d, if agree then 0 else Signed(d, v)))
        else if agree && q == Across(p, d) then s.grid[q].(edges := s.grid[q].edges.Set(Opposite(d), 0))
        else s.grid[q]
  }

  lemma BothSides(s: Slice, t: Slice, p: Pos, d: Dir)
    requires s.Wf() && InBox(s.nx, s.ny, p) && s.NeighbourHas(p, d, s.grid[p].value)
    requires
      var q := Across(p, d);
      t == s.(grid := s.grid[p := s.grid[p].(edges := s.grid[p].edges.Set(d, 0))]
                            [q := s.grid[q].(edges := s.grid[q].edges.Set(Opposite(d), 0))])
    ensures SideRefreshed(s, t, p, d)
  {
    AcrossBack(p, p, d);
    assert t.grid.Keys == s.grid.Keys;
  }

  lemma OneSide(s: Slice, t: Slice, p: Pos, d: Dir)
    requires s.Wf() && InBox(s.nx, s.ny, p) && !s.NeighbourHas(p, d, s.grid[p].value)
    requires t == s.(grid := s.grid[p := s.grid[p].(edges := s.grid[p].edges.Set(d, Signed(d, s.grid[p].value)))])
    ensures SideRefreshed(s, t, p, d)
  {
    assert t.grid.Keys == s.grid.Keys;
  }

  lemma SideAgrees(s: Slice, t: Slice, p: Pos, v: int, done: set<Dir>, d: Dir)
    requires s.Wf() && InBox(s.nx, s.ny, p) && s.Written(t, p, v, done)
    ensures p in s.grid && t.grid.Keys == s.grid.Keys && t.grid[p].value == v
    ensures t.NeighbourHas(p, d, v) == s.NeighbourHas(p, d, v)
  {
    AcrossBack(p, p, d);
    assert p in s.grid;
    var q := Across(p, d);
    assert q in s.grid ==>
      t.grid[q] == s.grid[q].(value := if q == p then v else s.grid[q].value, edges := t.grid[q].edges);
  }

  lemma EdgeGetSet(es: Edges, d: Dir, x: int, e: Dir)
    ensures es.Set(d, x).Get(e) == if e == d then x else es.Get(e)
    ensures Opposite(Opposite(e)) == e
  {
  }

  /** What refreshing side `d` of `p` does to one edge. */
  lemma RefreshedEdge(t: Slice, u: Slice, p: Pos, d: Dir, r: Pos, e: Dir)
    requires t.Wf() && InBox(t.nx, t.ny, p) && SideRefreshed(t, u, p, d) && r in t.grid
    ensures
      var v := t.grid[p].value;
      var agree := t.NeighbourHas(p, d, v);
      r in u.grid && u.grid[r].edges.Get(e) ==
        if r == p && e == d then (if agree then 0 else Signed(d, v))
        else if agree && r == Across(p, d) && e == Opposite(d) then 0
        else t.grid[r].edges.Get(e)
  {
    AcrossBack(p, p, d);
    var v := t.grid[p].value;
    EdgeGetSet(t.grid[r].edges, d, if t.NeighbourHas(p, d, v) then 0 else Signed(d, v), e);
    EdgeGetSet(t.grid[r].edges, Opposite(d), 0, e);
  }

  /** What one more side of `p` does to one edge. */
  lemma EdgeAfterMore(s: Slice, p: Pos, v: int, done: set<Dir>, d: Dir, r: Pos, e: Dir)
    requires s.Wf() && InBox(s.nx, s.ny, p) && r in s.grid
    ensures
      var agree := s.NeighbourHas(p, d, v);
      s.EdgeAfter(p, v, done + {d}, r, e) ==
        if r == p && e == d then (if agree then 0 else Signed(d, v))
        else if agree && r == Across(p, d) && e == Opposite(d) then 0
        else s.EdgeAfter(p, v, done, r, e)
  {
    AcrossBack(p, r, e);
    AcrossBack(p, p, d);
  }

  lemma SideUpdatedAt(s: Slice, t: Slice, u: Slice, p: Pos, v: int, done: set<Dir>, d: Dir, r: Pos, e: Dir)
    requires s.Wf() && InBox(s.nx, s.ny, p) && s.Written(t, p, v, done)
    requires SideRefreshed(t, u, p, d) && r in s.grid
    ensures r in u.grid && u.grid[r].edges.Get(e) == s.EdgeAfter(p, v, done + {d}, r, e)
  {
    SideAgrees(s, t, p, v, done, d);
    assert t.grid[r].edges.Get(e) == s.EdgeAfter(p, v, done, r, e);
    hide *;
    RefreshedEdge(t, u, p, d, r, e);
    EdgeAfterMore(s, p, v, done, d, r, e);
  }

  lemma SideKeepsCells(s: Slice, t: Slice, u: Slice, p: Pos, v: int, done: set<Dir>, d: Dir)
    requires s.Wf() && InBox(s.nx, s.ny, p) && s.Written(t, p, v, done)
    requires SideRefreshed(t, u, p, d)
    ensures u.nx == s.nx && u.ny == s.ny && u.Wf()
    ensures forall q :: q in s.grid ==>
      u.grid[q] == s.grid[q].(value := if q == p then v else s.grid[q].value, edges := u.grid[q].edges)
  {
    hide Slice.EdgeAfter, Slice.NeighbourHas;
  }

  /** One step of a cell write: from the sides in `done` to one side more. */
  lemma SideUpdated(s: Slice, t: Slice, u: Slice, p: Pos, v: int, done: set<Dir>, d: Dir)
    requires s.Wf() && InBox(s.nx, s.ny, p) && s.Written(t, p, v, done)
    requires SideRefreshed(t, u, p, d)
    ensures s.Written(u, p, v, done + {d})
  {
    SideKeepsCells(s, t, u, p, v, done, d);
    hide Slice.EdgeAfter, SideRefreshed;
    forall r, e: Dir | r in s.grid ensures u.grid[r].edges.Get(e) == s.EdgeAfter(p, v, done + {d}, r, e) {
      SideUpdatedAt(s, t, u, p, v, done, d, r, e);
    }
  }

  lemma ValueWritten(s: Slice, t: Slice, p: Pos, v: int)
    requires s.Wf() && InBox(s.nx, s.ny, p)
    requires t == s.(grid := s.grid[p := s.grid[p].(value := v)])
    ensures s.Written(t, p, v, {})
  {
    assert t.grid.Keys == s.grid.Keys;
  }

  lemma TwoSides(s: Slice, s0: Slice, s1: Slice, s2: Slice, p: Pos, v: int, done: set<Dir>, d: Dir, e: Dir)
    requires s.Wf() && InBox(s.nx, s.ny, p) && s.Written(s0, p, v, done)
    requires SideRefreshed(s0, s1, p, d) && s1.Wf() && SideRefreshed(s1, s2, p, e)
    ensures s.Written(s2, p, v, done + {d} + {e})
  {
    SideUpdated(s, s0, s1, p, v, done, d);
    SideUpdated(s, s1, s2, p, v, done + {d}, e);
  }

  lemma AllSides()
    ensures {} + {LeftEdge} + {RightEdge} + {TopEdge} + {BottomEdge} == ALL_SIDES
  {
  }

  /** The four side updates of a cell write come to the pointwise description of the write. */
  lemma FourSides(s: Slice, s0: Slice, s1: Slice, s2: Slice, s3: Slice, s4: Slice, p: Pos, v: int)
    requires s.Wf() && InBox(s.nx, s.ny, p)
    requires s.Written(s0, p, v, {})
    requires SideRefreshed(s0, s1, p, LeftEdge)
    requires s1.Wf() && SideRefreshed(s1, s2, p, RightEdge)
    requires s2.Wf() && SideRefreshed(s2, s3, p, TopEdge)
    requires s3.Wf() && SideRefreshed(s3, s4, p, BottomEdge)
    ensures s.CellSet(s4, p, v)
  {
    var half: set<Dir> := {} + {LeftEdge} + {RightEdge};
    TwoSides(s, s0, s1, s2, p, v, {}, LeftEdge, RightEdge);
    TwoSides(s, s2, s3, s4, p, v, half, TopEdge, BottomEdge);
    AllSides();
  }

  /** What a cell write does to the values, the barriers, the loose edges and the sum. */
  lemma CellSetFacts(s: Slice, t: Slice, p: Pos, v: int)
    requires s.Wf() && InBox(s.nx, s.ny, p) && s.CellSet(t, p, v) && s.LooseEdges()
    ensures t.LooseEdges()
    ensures t.Values() == s.Values()[p := v] && t.Barriers() == s.Barriers()
    ensures Total(t.Values(), s.nx, s.ny) == Total(s.Values(), s.nx, s.ny) + v - s.Values()[p]
  {
    CellSetValues(s, t, p, v);
    CellSetKeepsLooseEdges(s, t, p, v);
    TotalUpdate(s.Values(), s.nx, s.ny, p, v);
  }

  /** `t` is the slice `s` after the cells before `end`, row by row, were given the value, without edges. */
  ghost predicate Assigned(s: Slice, t: Slice, value: int, end: Pos) {
    && t == s.(grid := t.grid) && t.grid.Keys == s.grid.Keys
    && forall p :: p in s.grid ==>
         t.grid[p] == if InBox(s.nx, s.ny, p) && Before(p, end)
           then s.grid[p].(value := value, edges := NO_EDGES) else s.grid[p]
  }

  lemma NothingAssigned(s: Slice, value: int)
    ensures Assigned(s, s, value, Pos(0, 0))
  {
  }

  ghost function AssignedCell(t: Slice, value: int, p: Pos): Slice
    requires p in t.grid
  {
    t.(grid := t.grid[p := t.grid[p].(value := value, edges := NO_EDGES)])
  }

  lemma AssignedStep(s: Slice, t: Slice, value: int, i: int, j: int)
    requires s.Wf() && 0 <= j < s.ny && 0 <= i < s.nx && Assigned(s, t, value, Pos(i, j))
    ensures Pos(i, j) in t.grid
    ensures Assigned(s, AssignedCell(t, value, Pos(i, j)), value, Pos(i + 1, j))
  {
    BeforeNext(i, j);
    hide Before;
    assert AssignedCell(t, value, Pos(i, j)).grid.Keys == s.grid.Keys;
  }

  lemma AssignedNextRow(s: Slice, t: Slice, value: int, j: int)
    requires s.Wf() && Assigned(s, t, value, Pos(s.nx, j))
    ensures Assigned(s, t, value, Pos(0, j + 1))
  {
    BeforeNextRow(s.nx, s.ny, j);
    hide Before, Slice.Wf;
  }

  /** In the end every cell of the slice has the value and no edges. */
  lemma AllAssigned(s: Slice, t: Slice, value: int, p: Pos)
    requires s.Wf() && Assigned(s, t, value, Pos(0, s.ny)) && p in s.grid
    ensures t.Wf() && t.nx == s.nx && t.ny == s.ny
    ensures InBox(s.nx, s.ny, p) ==> t.grid[p].value == value && t.grid[p].edges == NO_EDGES
    ensures !InBox(s.nx, s.ny, p) ==> t.grid[p] == s.grid[p]
  {
  }

  lemma AssignedIsLoose(s: Slice, t: Slice, value: int)
    requires s.Wf() && s.LooseEdges() && Assigned(s, t, value, Pos(0, s.ny))
    ensures t.Wf() && t.LooseEdges()
    ensures Total(t.Values(), s.nx, s.ny) == value * s.nx * s.ny
  {
    AllAssigned(s, t, value, Pos(0, 0));
    hide Assigned;
    forall p | InBox(s.nx, s.ny, p) ensures t.grid[p].value == value && t.grid[p].edges == NO_EDGES {
      AllAssigned(s, t, value, p);
    }
    forall p | p in t.grid && !InBox(t.nx, t.ny, p) ensures t.grid[p].edges == NO_EDGES {
      AllAssigned(s, t, value, p);
    }
    TotalConstant(t.Values(), s.nx, s.ny, value);
  }
}
