/** Numbering the active cells of a grid, with coarse groups, and the maps between cells and active indices. */
module GridIndex {
  import opened ActiveIndex
  import opened CoarseCells

  /** The shared facts about cells of other groups: they do not see a further cell. */
  lemma OtherGroup(g: GridCells, c: int, x: nat)
    requires g.Valid() && x < |g.active| && (g.group[x] != c || g.active[x] == 0)
    ensures Actives(g, c, x + 1) == Actives(g, c, x)
    ensures GroupIndex(g, Matrix, c, x + 1) == GroupIndex(g, Matrix, c, x)
    ensures GroupIndex(g, Fracture, c, x + 1) == GroupIndex(g, Fracture, c, x)
  {
    hide On;
  }

  class Grid {
    const g: GridCells
    const dualPorosity: bool
    /** The index of each active cell, one for each kind. */
    const matrixIndex: array<int>
    const fractureIndex: array<int>
    var coarseCells: seq<CoarseCell?>
    var totalActive: int
    var totalActiveFracture: int
    var indexMap: seq<int>
    var invIndexMap: seq<int>
    var fractureIndexMap: seq<int>
    var invFractureIndexMap: seq<int>

    ghost predicate Valid() {
      && g.Valid() && matrixIndex.Length == |g.active| && fractureIndex.Length == |g.active|
      && matrixIndex != fractureIndex
    }

    /** A grid whose coarse groups have not been collected yet. */
    constructor (g: GridCells, dualPorosity: bool)
      requires g.Valid()
      ensures Valid() && this.g == g && this.dualPorosity == dualPorosity
      ensures fresh(matrixIndex) && fresh(fractureIndex) && coarseCells == []
    {
      this.g, this.dualPorosity := g, dualPorosity;
      matrixIndex := new int[|g.active|](x => -1);
      fractureIndex := new int[|g.active|](x => -1);
      coarseCells := [];
      totalActive, totalActiveFracture := 0, 0;
      indexMap, invIndexMap, fractureIndexMap, invFractureIndexMap := [], [], [], [];
    }

    /** The coarse groups hold the cells among the first `m`; a group without cells does not exist. */
    ghost predicate GroupsHold(m: nat)
      requires Valid() && m <= |g.active|
      reads this`coarseCells, coarseCells
    {
      && (forall c :: 0 <= c < |coarseCells| ==> GroupHolds(c, m))
      && (forall x :: 0 <= x < m && g.group[x] != NO_GROUP ==> g.group[x] < |coarseCells|)
      && (forall c, d :: 0 <= c < d < |coarseCells| && coarseCells[c] != null ==> coarseCells[c] != coarseCells[d])
    }

    ghost predicate GroupHolds(c: int, m: nat)
      requires Valid() && m <= |g.active| && 0 <= c < |coarseCells|
      reads this`coarseCells, coarseCells
    {
      && (coarseCells[c] == null <==> Members(g, c, m) == [])
      && (coarseCells[c] != null ==> coarseCells[c].cellList == Members(g, c, m))
    }

    ghost predicate Unnumbered(c: int)
      requires 0 <= c < |coarseCells|
      reads this`coarseCells, coarseCells
    {
      coarseCells[c] != null ==>
        coarseCells[c].activeCells == [] && coarseCells[c].activeValues == []
    }

    /** The group with a given number, made if there is none. */
    method GetOrCreate(c: int) returns (group: CoarseCell)
      requires c >= 0
      modifies this`coarseCells
      ensures |coarseCells| == if c < |old(coarseCells)| then |old(coarseCells)| else c + 1
      ensures coarseCells[c] == group
      ensures forall d :: 0 <= d < |old(coarseCells)| && (d != c || old(coarseCells)[d] != null) ==>
              coarseCells[d] == old(coarseCells)[d]
      ensures forall d :: |old(coarseCells)| <= d < c ==> coarseCells[d] == null
      ensures (c >= |old(coarseCells)| || old(coarseCells)[c] == null) ==>
              fresh(group) && group.cellList == [] && group.activeCells == [] && group.activeValues == []
    {
      while |coarseCells| <= c
        invariant |old(coarseCells)| <= |coarseCells| <= (if c < |old(coarseCells)| then |old(coarseCells)| else c + 1)
        invariant forall d :: 0 <= d < |old(coarseCells)| ==> coarseCells[d] == old(coarseCells)[d]
        invariant forall d :: |old(coarseCells)| <= d < |coarseCells| ==> coarseCells[d] == null
        decreases c + 1 - |coarseCells|
      {
        coarseCells := coarseCells + [null];
      }
      if coarseCells[c] == null {
        var made := new CoarseCell();
        coarseCells := coarseCells[c := made];
      }
      group := coarseCells[c];
    }

    /** Adds one cell to its group. */
    method CollectCell(x: nat)
      requires Valid() && x < |g.active| && GroupsHold(x) && forall c :: 0 <= c < |coarseCells| ==> Unnumbered(c)
      modifies this`coarseCells, coarseCells
      ensures GroupsHold(x + 1) && forall c :: 0 <= c < |coarseCells| ==> Unnumbered(c)
      ensures forall c :: 0 <= c < |coarseCells| && coarseCells[c] != null ==>
              coarseCells[c] in old(coarseCells) || fresh(coarseCells[c])
    {
      hide Actives, Reps;
      var c := g.group[x];
      if c != NO_GROUP {
        ghost var before, m := coarseCells, x + 1;
        var group := GetOrCreate(c);
        group.Update(x);
        forall d | 0 <= d < |coarseCells| ensures GroupHolds(d, m) && Unnumbered(d) {
          if d < |before| {
            assert old(GroupHolds(d, x)) && old(Unnumbered(d));
          } else {
            NoMembers(g, d, x);
          }
        }
      } else {
        ghost var m := x + 1;
        forall d | 0 <= d < |coarseCells| ensures GroupHolds(d, m) {
          assert GroupHolds(d, x);
        }
      }
    }

    /** Collects the cells of all coarse groups. */
    method InitCoarseCells()
      requires Valid() && coarseCells == []
      modifies this`coarseCells
      ensures GroupsHold(|g.active|) && forall c :: 0 <= c < |coarseCells| ==> Unnumbered(c)
      ensures forall c :: 0 <= c < |coarseCells| && coarseCells[c] != null ==> fresh(coarseCells[c])
    {
      for x := 0 to |g.active|
        invariant GroupsHold(x) && forall c :: 0 <= c < |coarseCells| ==> Unnumbered(c)
        invariant forall c :: 0 <= c < |coarseCells| && coarseCells[c] != null ==> fresh(coarseCells[c])
      {
        CollectCell(x);
      }
    }

    /** The groups share indices as far as the first `m` cells have been numbered. */
    ghost predicate GroupsNumbered(m: nat)
      requires Valid() && m <= |g.active|
      reads this`coarseCells, coarseCells
    {
      forall c :: 0 <= c < |coarseCells| ==> GroupNumbered(c, m)
    }

    ghost predicate GroupNumbered(c: int, m: nat)
      requires Valid() && m <= |g.active| && 0 <= c < |coarseCells|
      reads this`coarseCells, coarseCells
    {
      coarseCells[c] != null ==> coarseCells[c].NumberedUpTo(g, c, m)
    }

    /** Numbers one cell: a cell in no group gets the next index of each kind, an active cell of a group joins it. */
    method NumberCell(x: nat, nextMatrix: int, nextFracture: int)
      returns (ok: bool, nextMatrix': int, nextFracture': int)
      requires Valid() && x < |g.active| && GroupsHold(|g.active|) && GroupsNumbered(x) && Uniform(g, x)
      requires nextMatrix == |Reps(g, Matrix, x)| && nextFracture == |Reps(g, Fracture, x)|
      requires PlainNumbered(g, Matrix, matrixIndex[..], x) && PlainNumbered(g, Fracture, fractureIndex[..], x)
      modifies matrixIndex, fractureIndex, coarseCells
      ensures ok == Uniform(g, x + 1)
      ensures ok ==>
        && GroupsHold(|g.active|) && GroupsNumbered(x + 1)
        && nextMatrix' == |Reps(g, Matrix, x + 1)| && nextFracture' == |Reps(g, Fracture, x + 1)|
        && PlainNumbered(g, Matrix, matrixIndex[..], x + 1) && PlainNumbered(g, Fracture, fractureIndex[..], x + 1)
    {
      hide On, Uniform, Actives, GroupIndex, Members;
      ghost var m, n := x + 1, |g.active|;
      ok, nextMatrix', nextFracture' := true, nextMatrix, nextFracture;
      var c := g.group[x];
      PlainStep(g, Matrix, matrixIndex[..], x);
      PlainStep(g, Fracture, fractureIndex[..], x);
      if g.active[x] != 0 && c != NO_GROUP {
        assert GroupHolds(c, n) && GroupNumbered(c, x);
        MembersMeaning(g, c, n);
        var group := coarseCells[c];
        ok, nextMatrix', nextFracture' := group.UpdateIndex(x, nextMatrix, nextFracture, g.active[x], g);
      } else if g.active[x] != 0 {
        if On(Matrix, g.active[x]) {
          matrixIndex[x] := nextMatrix';
          nextMatrix' := nextMatrix' + 1;
        }
        if On(Fracture, g.active[x]) {
          fractureIndex[x] := nextFracture';
          nextFracture' := nextFracture' + 1;
        }
      }
      if ok {
        forall d | 0 <= d < |coarseCells| ensures GroupHolds(d, n) && GroupNumbered(d, m) {
          assert old(GroupHolds(d, n)) && old(GroupNumbered(d, x));
          if d != c || g.active[x] == 0 { OtherGroup(g, d, x); }
        }
      }
    }

    /** Gives the shared index of group `c` to all its cells. */
    method ShareIndex(c: nat)
      requires Valid() && c < |coarseCells| && GroupHolds(c, |g.active|) && GroupNumbered(c, |g.active|) &&
               Uniform(g, |g.active|)
      requires PlainNumbered(g, Matrix, matrixIndex[..], |g.active|) &&
               PlainNumbered(g, Fracture, fractureIndex[..], |g.active|)
      requires Shared(g, Matrix, matrixIndex[..], c) && Shared(g, Fracture, fractureIndex[..], c)
      modifies matrixIndex, fractureIndex
      ensures PlainNumbered(g, Matrix, matrixIndex[..], |g.active|) &&
              PlainNumbered(g, Fracture, fractureIndex[..], |g.active|)
      ensures Shared(g, Matrix, matrixIndex[..], c + 1) && Shared(g, Fracture, fractureIndex[..], c + 1)
    {
      hide On, Uniform, Actives, GroupIndex, Members, PlainNumbered, Shared, SharedTo;
      ghost var n := |g.active|;
      MembersMeaning(g, c, n);
      GroupValue(g, Matrix, c);
      GroupValue(g, Fracture, c);
      SharedToStarts(g, Matrix, matrixIndex[..], c);
      SharedToStarts(g, Fracture, fractureIndex[..], c);
      if coarseCells[c] != null && |coarseCells[c].activeCells| > 0 {
        var group := coarseCells[c];
        var value := group.activeValues[0];
        for k := 0 to |group.cellList|
          invariant PlainNumbered(g, Matrix, matrixIndex[..], n) && PlainNumbered(g, Fracture, fractureIndex[..], n)
          invariant SharedTo(g, Matrix, matrixIndex[..], c, k) && SharedTo(g, Fracture, fractureIndex[..], c, k)
        {
          var x := group.cellList[k];
          SharedToStep(g, Matrix, matrixIndex[..], c, k);
          SharedToStep(g, Fracture, fractureIndex[..], c, k);
          if On(Matrix, value) {
            ghost var was := matrixIndex[..];
            matrixIndex[x] := group.activeIndex;
            assert matrixIndex[..] == was[x := group.activeIndex];
          }
          if On(Fracture, value) {
            ghost var was := fractureIndex[..];
            fractureIndex[x] := group.activeFractureIndex;
            assert fractureIndex[..] == was[x := group.activeFractureIndex];
          }
        }
      }
      SharedToEnds(g, Matrix, matrixIndex[..], c);
      SharedToEnds(g, Fracture, fractureIndex[..], c);
    }

    /**
     * Gives every active cell its index; cells of a group share one. Differing active values within a group are
     * refused.
     */
    method SetActiveIndex() returns (ok: bool)
      requires Valid() && GroupsHold(|g.active|) && forall c :: 0 <= c < |coarseCells| ==> Unnumbered(c)
      modifies this`totalActive, this`totalActiveFracture, matrixIndex, fractureIndex, coarseCells
      ensures ok == Uniform(g, |g.active|)
      ensures ok ==>
        && GroupsHold(|g.active|) && GroupsNumbered(|g.active|)
        && totalActive == |Reps(g, Matrix, |g.active|)| && CellsNumbered(g, Matrix, matrixIndex[..])
      ensures ok && (dualPorosity || |coarseCells| > 0) ==>
        totalActiveFracture == |Reps(g, Fracture, |g.active|)| && CellsNumbered(g, Fracture, fractureIndex[..])
      ensures !dualPorosity && |coarseCells| == 0 ==>
              ok && totalActiveFracture == 0 && fractureIndex[..] == old(fractureIndex[..])
    {
      hide On, Uniform, Actives, GroupIndex, Members, PlainNumbered, Shared, Reps, CellsNumbered;
      hide CoarseCell.NumberedUpTo;
      ghost var n := |g.active|;
      StartNumbering(g, matrixIndex[..], fractureIndex[..]);
      if |coarseCells| == 0 {
        NoGroups(g);
        NumberUngrouped();
        ok := true;
      } else {
        ok := NumberGrouped();
      }
    }

    /** The fast path, without coarse groups; the fracture indices are only set with dual porosity. */
    method NumberUngrouped()
      requires Valid() && forall x :: 0 <= x < |g.active| ==> g.group[x] == NO_GROUP
      requires PlainNumbered(g, Matrix, matrixIndex[..], 0) && PlainNumbered(g, Fracture, fractureIndex[..], 0)
      modifies this`totalActive, this`totalActiveFracture, matrixIndex, fractureIndex
      ensures totalActive == |Reps(g, Matrix, |g.active|)| && CellsNumbered(g, Matrix, matrixIndex[..])
      ensures dualPorosity ==>
        totalActiveFracture == |Reps(g, Fracture, |g.active|)| && CellsNumbered(g, Fracture, fractureIndex[..])
      ensures !dualPorosity ==> totalActiveFracture == 0 && fractureIndex[..] == old(fractureIndex[..])
    {
      hide On, Uniform, PlainNumbered, Reps, CellsNumbered, Shared;
      var nextMatrix := NumberPlain(Matrix, matrixIndex);
      var nextFracture := 0;
      if dualPorosity {
        nextFracture := NumberPlain(Fracture, fractureIndex);
        AllNumbered(g, Fracture, fractureIndex[..], 0);
      }
      totalActive, totalActiveFracture := nextMatrix, nextFracture;
      AllNumbered(g, Matrix, matrixIndex[..], 0);
    }

    /**
     * The path with coarse groups: first every cell on its own, then the cells of each group get the index they share.
     */
    method NumberGrouped() returns (ok: bool)
      requires Valid() && GroupsHold(|g.active|) && forall c :: 0 <= c < |coarseCells| ==> Unnumbered(c)
      requires Uniform(g, 0) && PlainNumbered(g, Matrix, matrixIndex[..], 0)
      requires PlainNumbered(g, Fracture, fractureIndex[..], 0)
      requires Reps(g, Matrix, 0) == [] && Reps(g, Fracture, 0) == []
      modifies this`totalActive, this`totalActiveFracture, matrixIndex, fractureIndex, coarseCells
      ensures ok == Uniform(g, |g.active|)
      ensures ok ==>
        && GroupsHold(|g.active|) && GroupsNumbered(|g.active|)
        && totalActive == |Reps(g, Matrix, |g.active|)| && CellsNumbered(g, Matrix, matrixIndex[..])
        && totalActiveFracture == |Reps(g, Fracture, |g.active|)| && CellsNumbered(g, Fracture, fractureIndex[..])
    {
      hide On, Uniform, PlainNumbered, Shared, Reps, CellsNumbered;
      var nextMatrix, nextFracture;
      ok, nextMatrix, nextFracture := NumberCells();
      if ok {
        ShareIndices();
        totalActive, totalActiveFracture := nextMatrix, nextFracture;
        AllNumbered(g, Matrix, matrixIndex[..], |coarseCells|);
        AllNumbered(g, Fracture, fractureIndex[..], |coarseCells|);
      }
    }

    /** Numbers the cells one after the other, until an active cell does not agree with its group. */
    method NumberCells() returns (ok: bool, nextMatrix: int, nextFracture: int)
      requires Valid() && GroupsHold(|g.active|) && forall c :: 0 <= c < |coarseCells| ==> Unnumbered(c)
      requires Uniform(g, 0) && PlainNumbered(g, Matrix, matrixIndex[..], 0)
      requires PlainNumbered(g, Fracture, fractureIndex[..], 0)
      requires Reps(g, Matrix, 0) == [] && Reps(g, Fracture, 0) == []
      modifies matrixIndex, fractureIndex, coarseCells
      ensures ok == Uniform(g, |g.active|)
      ensures ok ==>
        && GroupsHold(|g.active|) && GroupsNumbered(|g.active|)
        && nextMatrix == |Reps(g, Matrix, |g.active|)| && nextFracture == |Reps(g, Fracture, |g.active|)|
        && PlainNumbered(g, Matrix, matrixIndex[..], |g.active|)
        && PlainNumbered(g, Fracture, fractureIndex[..], |g.active|)
    {
      hide On, Uniform, Actives, GroupIndex, Members, PlainNumbered, Shared, Reps, CellsNumbered;
      hide CoarseCell.NumberedUpTo;
      ghost var n := |g.active|;
      ResetGroups();
      ok, nextMatrix, nextFracture := true, 0, 0;
      for x := 0 to |g.active|
        invariant ok && GroupsHold(n) && GroupsNumbered(x) && Uniform(g, x)
        invariant nextMatrix == |Reps(g, Matrix, x)| && nextFracture == |Reps(g, Fracture, x)|
        invariant PlainNumbered(g, Matrix, matrixIndex[..], x) && PlainNumbered(g, Fracture, fractureIndex[..], x)
      {
        ok, nextMatrix, nextFracture := NumberCell(x, nextMatrix, nextFracture);
        if !ok {
          NotUniform(g, x + 1, n);
          return;
        }
      }
    }

    /** Gives the cells of every group the index that they share. */
    method ShareIndices()
      requires Valid() && GroupsHold(|g.active|) && GroupsNumbered(|g.active|) && Uniform(g, |g.active|)
      requires PlainNumbered(g, Matrix, matrixIndex[..], |g.active|)
      requires PlainNumbered(g, Fracture, fractureIndex[..], |g.active|)
      modifies matrixIndex, fractureIndex
      ensures PlainNumbered(g, Matrix, matrixIndex[..], |g.active|)
      ensures PlainNumbered(g, Fracture, fractureIndex[..], |g.active|)
      ensures Shared(g, Matrix, matrixIndex[..], |coarseCells|)
      ensures Shared(g, Fracture, fractureIndex[..], |coarseCells|)
    {
      hide On, Uniform, Actives, GroupIndex, Members, PlainNumbered, Shared, Reps, CoarseCell.NumberedUpTo;
      ghost var n := |g.active|;
      NothingShared(g, Matrix, matrixIndex[..]);
      NothingShared(g, Fracture, fractureIndex[..]);
      for c := 0 to |coarseCells|
        invariant GroupsHold(n) && GroupsNumbered(n)
        invariant PlainNumbered(g, Matrix, matrixIndex[..], n) && PlainNumbered(g, Fracture, fractureIndex[..], n)
        invariant Shared(g, Matrix, matrixIndex[..], c) && Shared(g, Fracture, fractureIndex[..], c)
      {
        assert GroupHolds(c, n) && GroupNumbered(c, n);
        ShareIndex(c);
      }
    }

    /** The fast path without coarse groups, for one kind. */
    method NumberPlain(kind: Kind, index: array<int>) returns (next: int)
      requires Valid() && index.Length == |g.active|
      requires forall x :: 0 <= x < |g.active| ==> g.group[x] == NO_GROUP
      requires PlainNumbered(g, kind, index[..], 0)
      modifies index
      ensures next == |Reps(g, kind, |g.active|)| && PlainNumbered(g, kind, index[..], |g.active|)
    {
      hide On, PlainNumbered, Reps, Uniform;
      next := 0;
      StartNumbering(g, index[..], index[..]);
      for x := 0 to |g.active|
        invariant next == |Reps(g, kind, x)| && PlainNumbered(g, kind, index[..], x)
      {
        PlainStep(g, kind, index[..], x);
        if On(kind, g.active[x]) {
          ghost var was := index[..];
          index[x] := next;
          assert index[..] == was[x := next];
          next := next + 1;
        }
      }
    }

    method ResetGroups()
      requires Valid() && GroupsHold(|g.active|) && forall c :: 0 <= c < |coarseCells| ==> Unnumbered(c)
      modifies coarseCells
      ensures GroupsHold(|g.active|) && GroupsNumbered(0)
    {
      hide Members;
      ghost var n, start := |g.active|, 0;
      for c := 0 to |coarseCells|
        invariant GroupsHold(n) && forall d :: 0 <= d < |coarseCells| ==> Unnumbered(d)
        invariant forall d :: 0 <= d < c ==> GroupNumbered(d, start)
      {
        label before:
        if coarseCells[c] != null {
          coarseCells[c].ResetActiveIndex();
        }
        forall d | 0 <= d < |coarseCells|
          ensures GroupHolds(d, n) && Unnumbered(d) && (d <= c ==> GroupNumbered(d, start))
        {
          assert old@before(Unnumbered(d)) && old@before(GroupHolds(d, n));
          if d < c { assert old@before(GroupNumbered(d, start)); }
        }
      }
    }

    /** The first pass over the maps of one kind: cells that are on, and the inverse for the cells in no group. */
    method InitIndexMap(kind: Kind, index: array<int>, total: int) returns (indexMap': seq<int>, inverse: seq<int>)
      requires Valid() && index.Length == |g.active| && total == |Reps(g, kind, |g.active|)|
      requires CellsNumbered(g, kind, index[..])
      ensures MapFilled(g, kind, indexMap', |g.active|) && InverseFilled(g, kind, inverse, |g.active|)
    {
      hide On, Reps, CellsNumbered, MapFilled, InverseFilled;
      indexMap' := seq(|g.active|, x => 0);
      inverse := seq(total, a => 0);
      FillStarts(g, kind, indexMap', inverse);
      for x := 0 to |g.active|
        invariant MapFilled(g, kind, indexMap', x) && InverseFilled(g, kind, inverse, x)
      {
        FillStep(g, kind, index[..], indexMap', inverse, x);
        if On(kind, g.active[x]) {
          indexMap' := indexMap'[x := index[x]];
          if g.group[x] == NO_GROUP {
            inverse := inverse[index[x] := x];
          }
        } else {
          indexMap' := indexMap'[x := -1];
        }
      }
    }

    /**
     * The second pass, for one kind and one group: all its cells point to its index, which points to its first active
     * cell.
     */
    method ShareMaps(kind: Kind, c: nat, map_: seq<int>, inverse_: seq<int>)
      returns (indexMap': seq<int>, inverse: seq<int>)
      requires Valid() && c < |coarseCells| && GroupHolds(c, |g.active|) && GroupNumbered(c, |g.active|) &&
               Uniform(g, |g.active|)
      requires MapShared(g, kind, map_, c) && InverseShared(g, kind, inverse_, c)
      ensures MapShared(g, kind, indexMap', c + 1) && InverseShared(g, kind, inverse, c + 1)
    {
      hide On, Reps, Uniform, Members, Actives, GroupIndex, MapShared, InverseShared;
      ghost var n := |g.active|;
      indexMap', inverse := map_, inverse_;
      MembersMeaning(g, c, n);
      EmptyGroup(g, c, n);
      ShareInverse(g, kind, inverse_, c);
      MapLength(g, kind, map_, c);
      if coarseCells[c] != null && |coarseCells[c].activeCells| > 0 {
        var group := coarseCells[c];
        if On(kind, group.activeValues[0]) {
          inverse := inverse[group.Index(kind) := group.activeCells[0]];
          indexMap' := WriteAll(indexMap', group.cellList, group.Index(kind));
        }
      }
      ShareMap(g, kind, map_, c, indexMap');
    }

    /**
     * Coarse groups have fracture cells only in a grid with dual porosity: without it there is no map to write them to.
     */
    ghost predicate FracturesFit()
      requires Valid()
    {
      dualPorosity || forall x :: 0 <= x < |g.active| && g.group[x] != NO_GROUP ==> !On(Fracture, g.active[x])
    }

    /** The maps of both kinds after the second pass over the groups before `c`. */
    ghost predicate MapsShared(c: nat)
      requires Valid()
      reads this`indexMap, this`invIndexMap, this`fractureIndexMap, this`invFractureIndexMap
    {
      && MapShared(g, Matrix, indexMap, c) && InverseShared(g, Matrix, invIndexMap, c)
      && (dualPorosity ==>
          MapShared(g, Fracture, fractureIndexMap, c) && InverseShared(g, Fracture, invFractureIndexMap, c))
    }

    method ShareGroup(c: nat)
      requires Valid() && GroupsHold(|g.active|) && GroupsNumbered(|g.active|) && Uniform(g, |g.active|)
      requires c < |coarseCells| && MapsShared(c) && FracturesFit()
      modifies this`indexMap, this`invIndexMap, this`fractureIndexMap, this`invFractureIndexMap
      ensures MapsShared(c + 1)
    {
      hide Reps, Uniform, MapShared, InverseShared, GroupsHold, GroupHolds, GroupsNumbered, GroupNumbered;
      GroupAt(c);
      indexMap, invIndexMap := ShareMaps(Matrix, c, indexMap, invIndexMap);
      if dualPorosity {
        fractureIndexMap, invFractureIndexMap := ShareMaps(Fracture, c, fractureIndexMap, invFractureIndexMap);
      }
    }

    method InitMaps()
      requires Valid() && totalActive == |Reps(g, Matrix, |g.active|)| && CellsNumbered(g, Matrix, matrixIndex[..])
      requires dualPorosity ==>
               totalActiveFracture == |Reps(g, Fracture, |g.active|)| && CellsNumbered(g, Fracture, fractureIndex[..])
      modifies this`indexMap, this`invIndexMap, this`fractureIndexMap, this`invFractureIndexMap
      ensures MapsShared(0)
    {
      hide Reps, CellsNumbered, MapFilled, InverseFilled, MapShared, InverseShared;
      indexMap, invIndexMap := InitIndexMap(Matrix, matrixIndex, totalActive);
      FilledIsShared(g, Matrix, indexMap, invIndexMap);
      if dualPorosity {
        fractureIndexMap, invFractureIndexMap := InitIndexMap(Fracture, fractureIndex, totalActiveFracture);
        FilledIsShared(g, Fracture, fractureIndexMap, invFractureIndexMap);
      }
    }

    /** Builds the maps of both kinds from the indices of the cells. */
    method ReallocIndexMap()
      requires Valid() && FracturesFit() && GroupsHold(|g.active|) && GroupsNumbered(|g.active|) &&
               Uniform(g, |g.active|)
      requires totalActive == |Reps(g, Matrix, |g.active|)| && CellsNumbered(g, Matrix, matrixIndex[..])
      requires dualPorosity ==>
               totalActiveFracture == |Reps(g, Fracture, |g.active|)| && CellsNumbered(g, Fracture, fractureIndex[..])
      modifies this`indexMap, this`invIndexMap, this`fractureIndexMap, this`invFractureIndexMap
      ensures MapComplete(g, Matrix, indexMap) && invIndexMap == Reps(g, Matrix, |g.active|)
      ensures dualPorosity ==>
              MapComplete(g, Fracture, fractureIndexMap) && invFractureIndexMap == Reps(g, Fracture, |g.active|)
    {
      hide Reps, Uniform, CellsNumbered, MapShared, InverseShared, MapComplete;
      hide GroupsHold, GroupHolds, GroupsNumbered, GroupNumbered;
      InitMaps();
      for c := 0 to |coarseCells|
        invariant GroupsHold(|g.active|) && GroupsNumbered(|g.active|) && MapsShared(c)
      {
        ShareGroup(c);
      }
      GroupsBelow();
      SharedIsComplete(g, Matrix, indexMap, invIndexMap, |coarseCells|);
      if dualPorosity { SharedIsComplete(g, Fracture, fractureIndexMap, invFractureIndexMap, |coarseCells|); }
    }

    lemma GroupAt(c: nat)
      requires Valid() && GroupsHold(|g.active|) && GroupsNumbered(|g.active|) && c < |coarseCells|
      ensures GroupHolds(c, |g.active|) && GroupNumbered(c, |g.active|)
    {
    }

    lemma GroupsBelow()
      requires Valid() && GroupsHold(|g.active|)
      ensures forall x :: 0 <= x < |g.active| && g.group[x] != NO_GROUP ==> g.group[x] < |coarseCells|
    {
    }

    /** Numbers the active cells of a freshly built grid and builds the maps. */
    method UpdateIndex() returns (ok: bool)
      requires Valid() && GroupsHold(|g.active|) && forall c :: 0 <= c < |coarseCells| ==> Unnumbered(c)
      requires FracturesFit()
      modifies this`totalActive, this`totalActiveFracture, matrixIndex, fractureIndex, coarseCells
      modifies this`indexMap, this`invIndexMap, this`fractureIndexMap, this`invFractureIndexMap
      ensures ok == Uniform(g, |g.active|)
      ensures ok ==> Indexed(g, Matrix, totalActive, indexMap, invIndexMap)
      ensures ok && dualPorosity ==> Indexed(g, Fracture, totalActiveFracture, fractureIndexMap, invFractureIndexMap)
      ensures BitsWithoutGroups(g) ==> ok && CountedOut(g.active, {1, 3}, totalActive, indexMap, invIndexMap)
      ensures BitsWithoutGroups(g) && dualPorosity ==>
        CountedOut(g.active, {2, 3}, totalActiveFracture, fractureIndexMap, invFractureIndexMap)
    {
      hide On, Uniform, Reps, CellsNumbered, MapComplete, GroupsHold, CountedOut, BitsWithoutGroups;
      ok := SetActiveIndex();
      if ok {
        ReallocIndexMap();
      }
      UngroupedIsUniform(g);
      if ok && BitsWithoutGroups(g) {
        IndicesCountOut(g, Matrix, totalActive, indexMap, invIndexMap);
        if dualPorosity { IndicesCountOut(g, Fracture, totalActiveFracture, fractureIndexMap, invFractureIndexMap); }
      }
    }
  }

  /** Writes one value at all the given places. */
  method WriteAll(values: seq<int>, places: seq<int>, v: int) returns (result: seq<int>)
    requires forall k :: 0 <= k < |places| ==> 0 <= places[k] < |values|
    ensures WrittenAt(values, places, v, result)
  {
    result := values;
    for k := 0 to |places|
      invariant |result| == |values|
      invariant forall x :: 0 <= x < |values| ==> result[x] == if x in places[..k] then v else values[x]
    {
      assert places[..k+1] == places[..k] + [places[k]];
      result := result[places[k] := v];
    }
    assert places[..|places|] == places;
  }

  /**
   * The maps of one kind: the inverse map lists the cells with an index of their own, the map gives every cell its
   * index.
   */
  ghost predicate Indexed(g: GridCells, kind: Kind, total: int, indexMap: seq<int>, inverse: seq<int>)
    requires g.Valid()
  {
    total == |inverse| && MapComplete(g, kind, indexMap) && inverse == Reps(g, kind, |g.active|)
  }

  /** A grid without coarse groups, in which an active value is 0, 1, 2 or 3. */
  ghost predicate BitsWithoutGroups(g: GridCells)
    requires g.Valid()
  {
    forall x :: 0 <= x < |g.active| ==> g.group[x] == NO_GROUP && 0 <= g.active[x] <= 3
  }

  /** The cells whose active values are among the given ones are numbered in their order, and no other cell is. */
  ghost predicate CountedOut(active: seq<int>, values: set<int>, total: int, indexMap: seq<int>, inverse: seq<int>) {
    && |indexMap| == |active| && total == |inverse| == CountOf(active, values, |active|)
    && forall x :: 0 <= x < |active| ==>
         if active[x] in values then
           var a := CountOf(active, values, x); indexMap[x] == a < |inverse| && inverse[a] == x
         else indexMap[x] == -1
  }

  lemma UngroupedIsUniform(g: GridCells)
    requires g.Valid()
    ensures BitsWithoutGroups(g) ==> Uniform(g, |g.active|)
  {
  }

  /** The active values that stand for a kind. */
  lemma OnValues(kind: Kind, value: int)
    requires 0 <= value <= 3
    ensures On(kind, value) <==> value in if kind == Matrix then {1, 3} else {2, 3}
  {
    SumOfBits(value);
  }

  lemma {:induction false} RepsCountOut(g: GridCells, kind: Kind, values: set<int>, m: nat)
    requires g.Valid() && BitsWithoutGroups(g) && m <= |g.active| && values == if kind == Matrix then {1, 3} else {2, 3}
    ensures |Reps(g, kind, m)| == CountOf(g.active, values, m)
  {
    hide On;
    if m > 0 {
      RepsCountOut(g, kind, values, m - 1);
      OnValues(kind, g.active[m - 1]);
    }
  }

  /** Without coarse groups the index of a cell is the number of cells of the kind before it. */
  lemma IndicesCountOut(g: GridCells, kind: Kind, total: int, indexMap: seq<int>, inverse: seq<int>)
    requires g.Valid() && BitsWithoutGroups(g) && Indexed(g, kind, total, indexMap, inverse)
    ensures CountedOut(g.active, if kind == Matrix then {1, 3} else {2, 3}, total, indexMap, inverse)
  {
    hide On, Reps;
    var n, values := |g.active|, if kind == Matrix then {1, 3} else {2, 3};
    RepsCountOut(g, kind, values, n);
    forall x | 0 <= x < n
      ensures if g.active[x] in values then
                var a := CountOf(g.active, values, x); indexMap[x] == a < |inverse| && inverse[a] == x
              else indexMap[x] == -1
    {
      OnValues(kind, g.active[x]);
      RepsCountOut(g, kind, values, x);
      if On(kind, g.active[x]) { RankOfRep(g, kind, x, n); }
    }
  }

  ghost predicate MapComplete(g: GridCells, kind: Kind, indexMap: seq<int>)
    requires g.Valid()
  {
    |indexMap| == |g.active| && forall x :: 0 <= x < |g.active| ==> indexMap[x] == IndexOf(g, kind, x)
  }

  /**
   * After the first pass over the first `m` cells, the map gives the cells that are on their index, and no other cell
   * one.
   */
  ghost predicate MapFilled(g: GridCells, kind: Kind, indexMap: seq<int>, m: nat)
    requires g.Valid()
  {
    && |indexMap| == |g.active|
    && forall x :: 0 <= x < m && x < |g.active| ==>
         indexMap[x] == if On(kind, g.active[x]) then IndexOf(g, kind, x) else -1
  }

  ghost predicate InverseFilled(g: GridCells, kind: Kind, inverse: seq<int>, m: nat)
    requires g.Valid()
  {
    && |inverse| == |Reps(g, kind, |g.active|)|
    && forall x :: 0 <= x < m && IsRep(g, kind, x) && g.group[x] == NO_GROUP ==>
         Rank(g, kind, x) < |inverse| && inverse[Rank(g, kind, x)] == x
  }

  /** After the second pass over the groups before `c`. */
  ghost predicate MapShared(g: GridCells, kind: Kind, indexMap: seq<int>, c: nat)
    requires g.Valid()
  {
    && |indexMap| == |g.active|
    && forall x :: 0 <= x < |g.active| ==>
         indexMap[x] == if On(kind, g.active[x]) || g.group[x] < c then IndexOf(g, kind, x) else -1
  }

  ghost predicate InverseShared(g: GridCells, kind: Kind, inverse: seq<int>, c: nat)
    requires g.Valid()
  {
    && |inverse| == |Reps(g, kind, |g.active|)|
    && forall x :: IsRep(g, kind, x) && g.group[x] < c ==>
         Rank(g, kind, x) < |inverse| && inverse[Rank(g, kind, x)] == x
  }

  /** Every cell that is on carries its number: its own, or that of its group. */
  ghost predicate CellsNumbered(g: GridCells, kind: Kind, index: seq<int>)
    requires g.Valid() && |index| == |g.active|
  {
    forall x :: 0 <= x < |g.active| && On(kind, g.active[x]) ==> index[x] == IndexOf(g, kind, x)
  }

  /** The active index of a cell; -1 if it has none. All cells of a group have the index of the group. */
  ghost function IndexOf(g: GridCells, kind: Kind, x: int): int
    requires g.Valid() && 0 <= x < |g.active|
  {
    if g.group[x] != NO_GROUP then GroupIndex(g, kind, g.group[x], |g.active|)
    else if On(kind, g.active[x]) then Rank(g, kind, x) else -1
  }

  lemma StartNumbering(g: GridCells, matrix: seq<int>, fracture: seq<int>)
    requires g.Valid() && |matrix| == |fracture| == |g.active|
    ensures Uniform(g, 0) && PlainNumbered(g, Matrix, matrix, 0) && PlainNumbered(g, Fracture, fracture, 0)
    ensures Reps(g, Matrix, 0) == [] && Reps(g, Fracture, 0) == []
  {
  }

  lemma NotUniform(g: GridCells, m: nat, n: nat)
    requires g.Valid() && m <= n <= |g.active| && !Uniform(g, m)
    ensures !Uniform(g, n)
  {
  }

  lemma NoGroups(g: GridCells)
    requires g.Valid() && forall x :: 0 <= x < |g.active| ==> g.group[x] == NO_GROUP
    ensures Uniform(g, |g.active|)
  {
  }

  lemma NothingShared(g: GridCells, kind: Kind, index: seq<int>)
    requires g.Valid() && |index| == |g.active|
    ensures Shared(g, kind, index, 0)
  {
  }

  lemma AllNumbered(g: GridCells, kind: Kind, index: seq<int>, groups: nat)
    requires g.Valid() && |index| == |g.active| && PlainNumbered(g, kind, index, |g.active|)
    requires Shared(g, kind, index, groups) || groups == 0
    requires forall x :: 0 <= x < |g.active| && g.group[x] != NO_GROUP ==> g.group[x] < groups
    ensures CellsNumbered(g, kind, index)
  {
    hide On, GroupIndex, Rank;
  }

  /** The active cells of the groups before `c` carry the shared index of their group. */
  ghost predicate Shared(g: GridCells, kind: Kind, index: seq<int>, c: nat)
    requires g.Valid() && |index| == |g.active|
  {
    forall x :: 0 <= x < |g.active| && 0 <= g.group[x] < c && On(kind, g.active[x]) ==>
      index[x] == GroupIndex(g, kind, g.group[x], |g.active|)
  }

  /** So do the first `k` members of group `c`. */
  ghost predicate SharedTo(g: GridCells, kind: Kind, index: seq<int>, c: nat, k: nat)
    requires g.Valid() && |index| == |g.active|
  {
    && Shared(g, kind, index, c)
    && forall l :: 0 <= l < k && l < |Members(g, c, |g.active|)| ==>
         var x := Members(g, c, |g.active|)[l];
         0 <= x < |g.active| && (On(kind, g.active[x]) ==> index[x] == GroupIndex(g, kind, c, |g.active|))
  }

  lemma SharedToStarts(g: GridCells, kind: Kind, index: seq<int>, c: nat)
    requires g.Valid() && |index| == |g.active| && Shared(g, kind, index, c)
    ensures SharedTo(g, kind, index, c, 0)
  {
    hide Shared;
  }

  /** A group without active cells, or whose first active cell is off, has no cell that is on. */
  lemma GroupOff(g: GridCells, kind: Kind, c: nat)
    requires g.Valid() && Uniform(g, |g.active|)
    ensures
      var n := |g.active|;
      var cells := Actives(g, c, n);
      && (cells != [] ==> 0 <= cells[0] < n)
      && (cells == [] || !On(kind, g.active[cells[0]]) ==>
            forall x :: 0 <= x < n && g.group[x] == c ==> !On(kind, g.active[x]))
  {
    var n := |g.active|;
    var cells := Actives(g, c, n);
    ActivesMeaning(g, c, n);
    hide On, Actives;
    forall x | 0 <= x < n && g.group[x] == c && On(kind, g.active[x])
      ensures cells != [] && On(kind, g.active[cells[0]])
    {
      OnIsActive(kind, g.active[x]);
      assert x in cells;
      assert Agree(g, cells[0], x);
    }
  }

  /** If a group has active cells, it is on just when its first active cell is, and so is each of its active cells. */
  lemma GroupValue(g: GridCells, kind: Kind, c: nat)
    requires g.Valid() && Uniform(g, |g.active|)
    ensures
      var n := |g.active|;
      var cells := Actives(g, c, n);
      && (cells == [] ==> forall x :: 0 <= x < n && g.group[x] == c ==> !On(kind, g.active[x]))
      && (cells != [] ==> 0 <= cells[0] < n)
      && (cells != [] && !On(kind, g.active[cells[0]]) ==> forall x :: 0 <= x < n && g.group[x] == c ==>
          !On(kind, g.active[x]))
      && (cells != [] && On(kind, g.active[cells[0]]) ==> GroupIndex(g, kind, c, n) == Rank(g, kind, cells[0]))
      && (cells == [] || !On(kind, g.active[cells[0]]) ==> GroupIndex(g, kind, c, n) == -1)
  {
    hide On, Actives, Rank, Reps, Uniform, Agree;
    GroupOff(g, kind, c);
  }

  /** Writing the shared index to one more member. */
  lemma SharedToStep(g: GridCells, kind: Kind, index: seq<int>, c: nat, k: nat)
    requires g.Valid() && |index| == |g.active| && Uniform(g, |g.active|) && k < |Members(g, c, |g.active|)|
    requires SharedTo(g, kind, index, c, k) && PlainNumbered(g, kind, index, |g.active|)
    ensures
      var n := |g.active|;
      var x, cells := Members(g, c, n)[k], Actives(g, c, n);
      && 0 <= x < n
      && PlainNumbered(g, kind, index[x := GroupIndex(g, kind, c, n)], n)
      && SharedTo(g, kind, index[x := GroupIndex(g, kind, c, n)], c, k + 1)
      && (cells != [] ==> 0 <= cells[0] < n && (!On(kind, g.active[cells[0]]) ==> SharedTo(g, kind, index, c, k + 1)))
  {
    MembersMeaning(g, c, |g.active|);
    GroupValue(g, kind, c);
    var n := |g.active|;
    var x := Members(g, c, n)[k];
    assert g.group[x] == c;
    PlainStays(g, kind, index, x, GroupIndex(g, kind, c, n));
    hide On, Actives, Members, GroupIndex, Rank, Uniform, PlainNumbered;
  }

  lemma PlainStays(g: GridCells, kind: Kind, index: seq<int>, x: int, v: int)
    requires g.Valid() && |index| == |g.active| && 0 <= x < |g.active| && g.group[x] != NO_GROUP
    requires PlainNumbered(g, kind, index, |g.active|)
    ensures PlainNumbered(g, kind, index[x := v], |g.active|)
  {
    hide On, Rank;
  }

  lemma SharedToEnds(g: GridCells, kind: Kind, index: seq<int>, c: nat)
    requires g.Valid() && |index| == |g.active| && Uniform(g, |g.active|)
    requires SharedTo(g, kind, index, c, |Members(g, c, |g.active|)|) ||
             (Shared(g, kind, index, c) && Actives(g, c, |g.active|) == [])
    ensures Shared(g, kind, index, c + 1)
  {
    var n := |g.active|;
    MembersMeaning(g, c, n);
    GroupValue(g, kind, c);
    hide On, Actives, Members, GroupIndex, Rank, Uniform;
    forall x | 0 <= x < n && 0 <= g.group[x] < c + 1 && On(kind, g.active[x])
      ensures index[x] == GroupIndex(g, kind, g.group[x], n)
    {
      if g.group[x] == c {
        assert x in Members(g, c, n);
      }
    }
  }

  /** The cells in no group among the first `m` carry their number. */
  ghost predicate PlainNumbered(g: GridCells, kind: Kind, index: seq<int>, m: nat)
    requires g.Valid() && m <= |g.active| && |index| == |g.active|
  {
    forall x :: 0 <= x < m && g.group[x] == NO_GROUP && On(kind, g.active[x]) ==> index[x] == Rank(g, kind, x)
  }

  lemma PlainStep(g: GridCells, kind: Kind, index: seq<int>, x: nat)
    requires g.Valid() && x < |g.active| && |index| == |g.active| && PlainNumbered(g, kind, index, x)
    ensures PlainNumbered(g, kind, index[x := |Reps(g, kind, x)|], x + 1)
    ensures g.group[x] != NO_GROUP || !On(kind, g.active[x]) ==> PlainNumbered(g, kind, index, x + 1)
    ensures g.group[x] == NO_GROUP ==>
            |Reps(g, kind, x + 1)| == |Reps(g, kind, x)| + (if On(kind, g.active[x]) then 1 else 0)
    ensures g.active[x] == 0 ==> |Reps(g, kind, x + 1)| == |Reps(g, kind, x)| && !On(kind, g.active[x])
    ensures g.group[x] == NO_GROUP || g.active[x] == 0 ==> (Uniform(g, x + 1) <==> Uniform(g, x))
  {
    if g.group[x] == NO_GROUP || g.active[x] == 0 {
      forall y | 0 <= y < |g.active| ensures Agree(g, x, y) && Agree(g, y, x) {}
    }
  }

  lemma {:induction false} NoMembers(g: GridCells, c: int, m: nat)
    requires g.Valid() && m <= |g.active| && forall x :: 0 <= x < m ==> g.group[x] != c
    ensures Members(g, c, m) == []
  {
    if m > 0 { NoMembers(g, c, m - 1); }
  }

  lemma EmptyGroup(g: GridCells, c: int, m: nat)
    requires g.Valid() && m <= |g.active|
    ensures Members(g, c, m) == [] ==> Actives(g, c, m) == []
  {
    ActivesMeaning(g, c, m);
    MembersMeaning(g, c, m);
    if Actives(g, c, m) != [] {
      assert Actives(g, c, m)[0] in Members(g, c, m);
    }
  }

  lemma MapLength(g: GridCells, kind: Kind, indexMap: seq<int>, c: nat)
    requires g.Valid() && MapShared(g, kind, indexMap, c)
    ensures |indexMap| == |g.active|
  {
  }

  lemma FillStarts(g: GridCells, kind: Kind, indexMap: seq<int>, inverse: seq<int>)
    requires g.Valid() && |indexMap| == |g.active| && |inverse| == |Reps(g, kind, |g.active|)|
    ensures MapFilled(g, kind, indexMap, 0) && InverseFilled(g, kind, inverse, 0)
  {
  }

  /** Different cells with an index of their own have different numbers. */
  lemma RanksDiffer(g: GridCells, kind: Kind, x: int, y: int)
    requires g.Valid() && IsRep(g, kind, x) && IsRep(g, kind, y) && x != y
    ensures 0 <= x < |g.active| && 0 <= y < |g.active|
    ensures Rank(g, kind, x) != Rank(g, kind, y)
    ensures Rank(g, kind, x) < |Reps(g, kind, |g.active|)|
  {
    RankOfRep(g, kind, x, |g.active|);
    RankOfRep(g, kind, y, |g.active|);
  }

  lemma FillStep(g: GridCells, kind: Kind, index: seq<int>, indexMap: seq<int>, inverse: seq<int>, x: nat)
    requires g.Valid() && |index| == |g.active| && CellsNumbered(g, kind, index) && x < |g.active|
    requires MapFilled(g, kind, indexMap, x) && InverseFilled(g, kind, inverse, x)
    ensures |indexMap| == |g.active|
    ensures
      if On(kind, g.active[x]) then
        && MapFilled(g, kind, indexMap[x := index[x]], x + 1)
        && (g.group[x] == NO_GROUP ==>
            0 <= index[x] < |inverse| && InverseFilled(g, kind, inverse[index[x] := x], x + 1))
        && (g.group[x] != NO_GROUP ==> InverseFilled(g, kind, inverse, x + 1))
      else MapFilled(g, kind, indexMap[x := -1], x + 1) && InverseFilled(g, kind, inverse, x + 1)
  {
    hide On, GroupIndex, Reps, Actives;
    if On(kind, g.active[x]) && g.group[x] == NO_GROUP {
      assert IsRep(g, kind, x);
      RankOfRep(g, kind, x, |g.active|);
      forall y | 0 <= y < x && IsRep(g, kind, y) ensures Rank(g, kind, y) != Rank(g, kind, x) {
        RanksDiffer(g, kind, x, y);
      }
    }
  }

  lemma FilledIsShared(g: GridCells, kind: Kind, indexMap: seq<int>, inverse: seq<int>)
    requires g.Valid() && MapFilled(g, kind, indexMap, |g.active|) && InverseFilled(g, kind, inverse, |g.active|)
    ensures MapShared(g, kind, indexMap, 0) && InverseShared(g, kind, inverse, 0)
  {
    hide GroupIndex, Reps, Actives;
  }

  /** The first active cell of a group that is on is the only one of the group with an index of its own. */
  lemma RepOfGroup(g: GridCells, kind: Kind, c: nat)
    requires g.Valid() && Uniform(g, |g.active|)
    ensures
      var n := |g.active|;
      var cells, shared := Actives(g, c, n), GroupIndex(g, kind, c, n);
      && (cells != [] ==> 0 <= cells[0] < n)
      && (cells != [] && On(kind, g.active[cells[0]]) ==>
            IsRep(g, kind, cells[0]) && g.group[cells[0]] == c &&
              Rank(g, kind, cells[0]) == shared < |Reps(g, kind, n)|)
      && forall x :: IsRep(g, kind, x) && 0 <= x < n && g.group[x] == c ==>
           cells != [] && x == cells[0] && On(kind, g.active[cells[0]])
  {
    hide On, IsRep, GroupIndex, Reps, Uniform, Actives;
    var n := |g.active|;
    var cells := Actives(g, c, n);
    GroupValue(g, kind, c);
    ActivesMeaning(g, c, n);
    if cells != [] && On(kind, g.active[cells[0]]) {
      FirstIsRep(g, kind, c, n);
      RankOfRep(g, kind, cells[0], n);
    }
    forall x | IsRep(g, kind, x) && 0 <= x < n && g.group[x] == c
      ensures cells != [] && x == cells[0] && On(kind, g.active[cells[0]])
    {
      OnlyRepOfGroup(g, kind, c, x);
    }
  }

  lemma ShareInverse(g: GridCells, kind: Kind, inverse: seq<int>, c: nat)
    requires g.Valid() && Uniform(g, |g.active|) && InverseShared(g, kind, inverse, c)
    ensures
      var n := |g.active|;
      var cells, shared := Actives(g, c, n), GroupIndex(g, kind, c, n);
      && (cells != [] ==> 0 <= cells[0] < n)
      && (if cells != [] && On(kind, g.active[cells[0]]) then
            0 <= shared < |inverse| && InverseShared(g, kind, inverse[shared := cells[0]], c + 1)
          else InverseShared(g, kind, inverse, c + 1))
  {
    RepOfGroup(g, kind, c);
    hide On, GroupIndex, Reps, Actives, Uniform, Rank;
    var n := |g.active|;
    var cells, shared := Actives(g, c, n), GroupIndex(g, kind, c, n);
    var next := if cells != [] && On(kind, g.active[cells[0]]) then inverse[shared := cells[0]] else inverse;
    forall x | IsRep(g, kind, x) && g.group[x] < c + 1
      ensures Rank(g, kind, x) < |next| && next[Rank(g, kind, x)] == x
    {
      if cells != [] && On(kind, g.active[cells[0]]) && x != cells[0] {
        RanksDiffer(g, kind, x, cells[0]);
      }
    }
  }

  lemma OnlyRepOfGroup(g: GridCells, kind: Kind, c: nat, x: int)
    requires g.Valid() && IsRep(g, kind, x) && g.group[x] == c
    ensures
      var cells := Actives(g, c, |g.active|);
      cells != [] && cells[0] == x && On(kind, g.active[x])
  {
    OnIsActive(kind, g.active[x]);
    hide On;
    assert Actives(g, c, x + 1) == [x];
    ActivesPrefix(g, c, x + 1, |g.active|);
  }

  /** One value written at the given places of a map, and nowhere else. */
  ghost predicate WrittenAt(was: seq<int>, places: seq<int>, v: int, now: seq<int>) {
    |now| == |was| && forall x :: 0 <= x < |was| ==> now[x] == if x in places then v else was[x]
  }

  lemma ShareMap(g: GridCells, kind: Kind, indexMap: seq<int>, c: nat, next: seq<int>)
    requires g.Valid() && Uniform(g, |g.active|) && MapShared(g, kind, indexMap, c)
    ensures
      var n := |g.active|;
      var cells, members, shared := Actives(g, c, n), Members(g, c, n), GroupIndex(g, kind, c, n);
      && (cells != [] ==> 0 <= cells[0] < n)
      && (if cells != [] && On(kind, g.active[cells[0]]) then
            WrittenAt(indexMap, members, shared, next) ==> MapShared(g, kind, next, c + 1)
          else MapShared(g, kind, indexMap, c + 1))
  {
    GroupValue(g, kind, c);
    MembersMeaning(g, c, |g.active|);
    hide On, GroupIndex, Reps, Actives, Members, Uniform, Rank;
  }

  lemma SharedIsComplete(g: GridCells, kind: Kind, indexMap: seq<int>, inverse: seq<int>, groups: nat)
    requires g.Valid() && MapShared(g, kind, indexMap, groups) && InverseShared(g, kind, inverse, groups)
    requires forall x :: 0 <= x < |g.active| && g.group[x] != NO_GROUP ==> g.group[x] < groups
    ensures MapComplete(g, kind, indexMap) && inverse == Reps(g, kind, |g.active|)
  {
    var n := |g.active|;
    hide On, GroupIndex, Reps, Actives;
    forall a | 0 <= a < |inverse| ensures inverse[a] == Reps(g, kind, n)[a] {
      RepOfRank(g, kind, a, n);
    }
  }

  /** The same cell, or two cells of one coarse group. */
  ghost predicate SameCellOrGroup(g: GridCells, x: int, y: int)
    requires g.Valid() && 0 <= x < |g.active| && 0 <= y < |g.active|
  {
    x == y || g.group[x] == g.group[y] != NO_GROUP
  }

  /** Some cell of the same group, or the cell itself, is on. */
  ghost predicate GroupIsOn(g: GridCells, kind: Kind, x: int)
    requires g.Valid() && 0 <= x < |g.active|
  {
    exists y :: 0 <= y < |g.active| && SameCellOrGroup(g, x, y) && On(kind, g.active[y])
  }

  lemma IndexMeaning(g: GridCells, kind: Kind, x: int)
    requires g.Valid() && Uniform(g, |g.active|) && 0 <= x < |g.active|
    ensures
      var a, reps := IndexOf(g, kind, x), Reps(g, kind, |g.active|);
      && (a < 0 ==> a == -1 && !GroupIsOn(g, kind, x))
      && (a >= 0 ==> a < |reps| && 0 <= reps[a] < |g.active| && SameCellOrGroup(g, x, reps[a]) && GroupIsOn(g, kind, x))
  {
    var c, n := g.group[x], |g.active|;
    if c == NO_GROUP {
      if On(kind, g.active[x]) {
        assert IsRep(g, kind, x);
        RankOfRep(g, kind, x, n);
      }
    } else {
      GroupValue(g, kind, c);
      RepOfGroup(g, kind, c);
      hide On, Actives, Uniform, Reps, GroupIndex;
      var cells := Actives(g, c, n);
      if cells != [] && On(kind, g.active[cells[0]]) {
        RankOfRep(g, kind, cells[0], n);
      }
    }
  }

  /** The maps of a grid with coarse groups: the inverse map is strictly increasing and undone by the map; cells of a
      group share one index, other cells do not; a cell has an index just when it or a cell of its group is on. */
  lemma MapsAreInverse(g: GridCells, kind: Kind, total: int, indexMap: seq<int>, inverse: seq<int>)
    requires g.Valid() && Uniform(g, |g.active|) && Indexed(g, kind, total, indexMap, inverse)
    ensures |indexMap| == |g.active| && |inverse| == total
    ensures forall a, b :: 0 <= a < b < total ==> inverse[a] < inverse[b]
    ensures forall a :: 0 <= a < total ==>
              0 <= inverse[a] < |indexMap| && On(kind, g.active[inverse[a]]) && indexMap[inverse[a]] == a
    ensures forall x :: 0 <= x < |indexMap| ==> (if GroupIsOn(g, kind, x) then
              0 <= indexMap[x] < total && SameCellOrGroup(g, x, inverse[indexMap[x]]) else indexMap[x] == -1)
    ensures forall x, y :: 0 <= x < |indexMap| && 0 <= y < |indexMap| && SameCellOrGroup(g, x, y) ==>
            indexMap[x] == indexMap[y]
    ensures total == |Ungrouped(g, kind, |g.active|)| + |ActiveGroups(g, kind, |g.active|)|
  {
    var n := |g.active|;
    CountReps(g, kind, n);
    RepsMeaning(g, kind, n);
    hide On, Actives, Uniform, Reps, GroupIndex, GroupIsOn;
    forall a | 0 <= a < total
      ensures 0 <= inverse[a] < n && On(kind, g.active[inverse[a]]) && indexMap[inverse[a]] == a
    {
      RepOfRank(g, kind, a, n);
      RepHasItsRank(g, kind, inverse[a]);
    }
    forall x | 0 <= x < n
      ensures if GroupIsOn(g, kind, x) then
                0 <= indexMap[x] < total && SameCellOrGroup(g, x, inverse[indexMap[x]]) else indexMap[x] == -1
    {
      IndexMeaning(g, kind, x);
    }
  }

  /** The cell that the inverse map names is the first active one of its group. */
  lemma FirstOfGroup(g: GridCells, kind: Kind, total: int, indexMap: seq<int>, inverse: seq<int>, a: nat, y: nat)
    requires g.Valid() && Indexed(g, kind, total, indexMap, inverse) && a < |inverse|
    requires y < |g.active| && g.active[y] != 0 && 0 <= inverse[a] < |g.active| && SameCellOrGroup(g, inverse[a], y)
    ensures inverse[a] <= y
  {
    RepOfRank(g, kind, a, |g.active|);
    var x := inverse[a];
    ActivesMeaning(g, g.group[x], x);
    hide On, Reps, Actives;
  }

  lemma RepHasItsRank(g: GridCells, kind: Kind, x: int)
    requires g.Valid() && Uniform(g, |g.active|) && IsRep(g, kind, x)
    ensures 0 <= x < |g.active| && On(kind, g.active[x]) && IndexOf(g, kind, x) == Rank(g, kind, x)
  {
    if g.group[x] != NO_GROUP {
      RepOfGroup(g, kind, g.group[x]);
    }
  }
}
