/** A coarse group of cells: its members, and the index that its active cells share. */
module CoarseCells {
  import opened ActiveIndex

  /** The shared index of a group when the first `m` cells have been numbered; -1 if it has none. */
  ghost function GroupIndex(g: GridCells, kind: Kind, c: int, m: nat): int
    requires g.Valid() && m <= |g.active|
  {
    var cells := Actives(g, c, m);
    ActivesMeaning(g, c, m);
    if cells == [] || !On(kind, g.active[cells[0]]) then -1 else Rank(g, kind, cells[0])
  }

  /** The active values of some cells. */
  ghost predicate ValuesAre(g: GridCells, cells: seq<int>, values: seq<int>) {
    && |values| == |cells|
    && forall k :: 0 <= k < |cells| ==> 0 <= cells[k] < |g.active| && values[k] == g.active[cells[k]]
  }

  class CoarseCell {
    var activeIndex: int
    var activeFractureIndex: int
    var cellList: seq<int>
    var activeCells: seq<int>
    var activeValues: seq<int>

    constructor ()
      ensures cellList == [] && activeCells == [] && activeValues == []
      ensures activeIndex == -1 && activeFractureIndex == -1
    {
      activeIndex, activeFractureIndex := -1, -1;
      cellList, activeCells, activeValues := [], [], [];
    }

    function Index(kind: Kind): int
      reads this
    {
      if kind == Matrix then activeIndex else activeFractureIndex
    }

    method Update(globalIndex: int)
      modifies this`cellList
      ensures cellList == old(cellList) + [globalIndex]
    {
      cellList := cellList + [globalIndex];
    }

    method ResetActiveIndex()
      modifies this`activeIndex, this`activeFractureIndex
      ensures activeIndex == -1 && activeFractureIndex == -1
    {
      activeIndex, activeFractureIndex := -1, -1;
    }

    /** The active cells of group `c` among the first `m` cells, and the index that they share. */
    ghost predicate NumberedUpTo(g: GridCells, c: int, m: nat)
      requires g.Valid() && m <= |g.active|
      reads this
    {
      && activeCells == Actives(g, c, m) && ValuesAre(g, activeCells, activeValues)
      && Index(Matrix) == GroupIndex(g, Matrix, c, m)
      && Index(Fracture) == GroupIndex(g, Fracture, c, m)
    }

    /** Adds an active cell to the group: the first one gives it its index. Differing active values are refused. */
    method UpdateIndex(globalIndex: int, nextMatrix: int, nextFracture: int, activeValue: int, ghost g: GridCells)
      returns (ok: bool, nextMatrix': int, nextFracture': int)
      requires g.Valid() && 0 <= globalIndex < |g.active| && Uniform(g, globalIndex)
      requires activeValue == g.active[globalIndex] != 0 && g.group[globalIndex] != NO_GROUP
      requires NumberedUpTo(g, g.group[globalIndex], globalIndex)
      requires nextMatrix == |Reps(g, Matrix, globalIndex)| && nextFracture == |Reps(g, Fracture, globalIndex)|
      modifies this`activeIndex, this`activeFractureIndex, this`activeCells, this`activeValues
      ensures ok == Uniform(g, globalIndex + 1)
      ensures ok ==>
        && NumberedUpTo(g, g.group[globalIndex], globalIndex + 1)
        && nextMatrix' == |Reps(g, Matrix, globalIndex + 1)| && nextFracture' == |Reps(g, Fracture, globalIndex + 1)|
    {
      hide On, Uniform, Actives, Reps, GroupIndex;
      ghost var c, before := g.group[globalIndex], activeCells;
      GroupStep(g, Matrix, globalIndex);
      GroupStep(g, Fracture, globalIndex);
      nextMatrix', nextFracture' := nextMatrix, nextFracture;
      if On(Matrix, activeValue) {
        if activeIndex == -1 {
          activeIndex := nextMatrix';
          nextMatrix' := nextMatrix' + 1;
        }
      }
      if On(Fracture, activeValue) {
        if activeFractureIndex == -1 {
          activeFractureIndex := nextFracture';
          nextFracture' := nextFracture' + 1;
        }
      }
      activeCells := activeCells + [globalIndex];
      activeValues := activeValues + [activeValue];
      ok := |activeValues| <= 1 || activeValues[|activeValues| - 2] == activeValue;
      UniformMore(g, globalIndex);
    }
  }

  /** A further active cell of a group: the index and the count change only if it is the first one and is on. */
  lemma GroupStep(g: GridCells, kind: Kind, x: nat)
    requires g.Valid() && x < |g.active| && g.group[x] != NO_GROUP && g.active[x] != 0 && Uniform(g, x)
    ensures
      var c := g.group[x];
      var cells := Actives(g, c, x);
      && Actives(g, c, x + 1) == cells + [x]
      && GroupIndex(g, kind, c, x) >= -1
      && (if cells == [] then
            && GroupIndex(g, kind, c, x) == -1
            && GroupIndex(g, kind, c, x + 1) == (if On(kind, g.active[x]) then |Reps(g, kind, x)| else -1)
            && |Reps(g, kind, x + 1)| == |Reps(g, kind, x)| + (if On(kind, g.active[x]) then 1 else 0)
          else
            && GroupIndex(g, kind, c, x + 1) == GroupIndex(g, kind, c, x)
            && |Reps(g, kind, x + 1)| == |Reps(g, kind, x)|
            && 0 <= cells[0] < |g.active| && (On(kind, g.active[cells[0]]) <==> GroupIndex(g, kind, c, x) != -1))
  {
    hide On;
    ActivesMeaning(g, g.group[x], x);
  }

  /** One more active cell agrees with all cells before it just when it agrees with the last one of its group. */
  lemma UniformMore(g: GridCells, x: nat)
    requires g.Valid() && x < |g.active| && g.group[x] != NO_GROUP && g.active[x] != 0 && Uniform(g, x)
    ensures
      var cells := Actives(g, g.group[x], x);
      && (forall k :: 0 <= k < |cells| ==> 0 <= cells[k] < |g.active|)
      && (Uniform(g, x + 1) <==> cells == [] || g.active[cells[|cells|-1]] == g.active[x])
      && (Uniform(g, x + 1) && cells != [] ==> g.active[cells[0]] == g.active[x])
  {
    ActivesMeaning(g, g.group[x], x);
    hide Actives;
    var cells := Actives(g, g.group[x], x);
    if cells != [] {
      var first, last := cells[0], cells[|cells|-1];
      assert Agree(g, first, last);
      if Uniform(g, x + 1) { assert Agree(g, last, x) && Agree(g, first, x); }
    }
    if cells == [] || g.active[cells[|cells|-1]] == g.active[x] {
      forall y | 0 <= y < x ensures Agree(g, x, y) && Agree(g, y, x) {
        if g.group[y] == g.group[x] && g.active[y] != 0 {
          assert y in cells;
          assert Agree(g, cells[|cells|-1], y);
        }
      }
      OneMoreAgrees(g, x);
    }
  }

  lemma OneMoreAgrees(g: GridCells, x: nat)
    requires g.Valid() && x < |g.active| && Uniform(g, x)
    requires forall y :: 0 <= y < x ==> Agree(g, x, y) && Agree(g, y, x)
    ensures Uniform(g, x + 1)
  {
    assert Agree(g, x, x);
    hide Agree;
  }
}
