/** Copying the values of the active cells of a grid out of a keyword over all cells, and back. */
module Compression {
  import opened Prelude
  import opened ActiveIndex
  import opened GridIndex

  /** The active cells among the first `m`, in order. */
  ghost function ActiveCells(indexMap: seq<int>, m: nat): seq<int>
    requires m <= |indexMap|
  {
    if m == 0 then [] else ActiveCells(indexMap, m - 1) + if indexMap[m - 1] >= 0 then [m - 1] else []
  }

  lemma {:induction false} ActiveCellsMeaning(indexMap: seq<int>, m: nat)
    requires m <= |indexMap|
    ensures forall a :: 0 <= a < |ActiveCells(indexMap, m)| ==> 0 <= ActiveCells(indexMap, m)[a] < m
    ensures forall x :: 0 <= x < m && indexMap[x] >= 0 <==> x in ActiveCells(indexMap, m)
    ensures forall a, b :: 0 <= a < b < |ActiveCells(indexMap, m)| ==>
            ActiveCells(indexMap, m)[a] < ActiveCells(indexMap, m)[b]
  {
    if m > 0 { ActiveCellsMeaning(indexMap, m - 1); }
  }

  lemma {:induction false} ActiveCellsGrow(indexMap: seq<int>, m: nat, n: nat)
    requires m <= n <= |indexMap|
    ensures ActiveCells(indexMap, m) <= ActiveCells(indexMap, n)
    decreases n
  {
    if m < n { ActiveCellsGrow(indexMap, m, n - 1); }
  }

  /** Each active cell is the next one in the list. */
  lemma NextActive(indexMap: seq<int>)
    ensures ActiveCells(indexMap, 0) == []
    ensures forall i :: 0 <= i < |indexMap| ==>
              if indexMap[i] >= 0 then
                && |ActiveCells(indexMap, i + 1)| ==
                     |ActiveCells(indexMap, i)| + 1 <= |ActiveCells(indexMap, |indexMap|)|
                && ActiveCells(indexMap, |indexMap|)[|ActiveCells(indexMap, i)|] == i
              else ActiveCells(indexMap, i + 1) == ActiveCells(indexMap, i)
  {
    forall i | 0 <= i < |indexMap|
      ensures indexMap[i] >= 0 ==> |ActiveCells(indexMap, i + 1)| <= |ActiveCells(indexMap, |indexMap|)|
                                   && ActiveCells(indexMap, |indexMap|)[|ActiveCells(indexMap, i)|] == i
    {
      ActiveCellsGrow(indexMap, i + 1, |indexMap|);
      if indexMap[i] >= 0 { assert ActiveCells(indexMap, i + 1)[|ActiveCells(indexMap, i)|] == i; }
    }
  }

  /** All the places are in a range. */
  ghost predicate InRange(places: seq<int>, n: nat) {
    forall a :: 0 <= a < |places| ==> 0 <= places[a] < n
  }

  /** The values at the first `m` places, in front of what was there before. */
  ghost function Gathered<T>(source: seq<T>, places: seq<int>, target: seq<T>, m: nat): (r: seq<T>)
    requires InRange(places, |source|) && m <= |places| && m <= |target|
    ensures |r| == |target|
  {
    seq(|target|, a requires 0 <= a < |target| => if a < m then source[places[a]] else target[a])
  }

  /** The first `m` values written to their places, one after the other. */
  ghost function Scattered<T>(target: seq<T>, places: seq<int>, source: seq<T>, m: nat): (r: seq<T>)
    requires InRange(places, |target|) && m <= |places| && m <= |source|
    ensures |r| == |target|
  {
    if m == 0 then target else Scattered(target, places, source, m - 1)[places[m - 1] := source[m - 1]]
  }

  lemma NothingScattered<T>(target: seq<T>, places: seq<int>, source: seq<T>)
    requires InRange(places, |target|)
    ensures Scattered(target, places, source, 0) == target
  {
  }

  lemma ScatteredStep<T>(target: seq<T>, places: seq<int>, source: seq<T>, m: nat)
    requires InRange(places, |target|) && m < |places| && m < |source|
    ensures Scattered(target, places, source, m + 1) == Scattered(target, places, source, m)[places[m] := source[m]]
  {
  }

  /** If no place is used twice, each value arrives and nothing else changes. */
  lemma {:induction false} ScatteredMeaning<T>(target: seq<T>, places: seq<int>, source: seq<T>, m: nat)
    requires InRange(places, |target|) && Distinct(places) && m <= |places| && m <= |source|
    ensures forall a :: 0 <= a < m ==> Scattered(target, places, source, m)[places[a]] == source[a]
    ensures forall x :: 0 <= x < |target| && x !in places[..m] ==> Scattered(target, places, source, m)[x] == target[x]
  {
    if m > 0 {
      ScatteredMeaning(target, places, source, m - 1);
      assert places[..m] == places[..m - 1] + [places[m - 1]];
    }
  }

  /** A copy is made, or refused because of a size, or stopped at an index out of range. */
  datatype CopyResult = Copied | SizeMismatch | IndexOutOfRange

  /** Copies the values of the active cells to the front of the target. */
  method CompressedKwCopy<T>(indexMap: seq<int>, nactive: nat, target: array<T>, src: seq<T>) returns (r: CopyResult)
    modifies target
    ensures r.SizeMismatch? <==> target.Length != nactive || |src| != |indexMap|
    ensures r.SizeMismatch? ==> target[..] == old(target[..])
    ensures r.Copied? <==>
            target.Length == nactive && |src| == |indexMap| && |ActiveCells(indexMap, |indexMap|)| <= nactive
    ensures r.Copied? ==>
      var cells := ActiveCells(indexMap, |indexMap|);
      InRange(cells, |src|) && target[..] == Gathered(src, cells, old(target[..]), |cells|)
  {
    if target.Length != nactive || |src| != |indexMap| { return SizeMismatch; }
    ghost var cells := ActiveCells(indexMap, |indexMap|);
    ActiveCellsMeaning(indexMap, |indexMap|);
    NextActive(indexMap);
    hide ActiveCells;
    var activeIndex := 0;
    for i := 0 to |indexMap|
      invariant activeIndex == |ActiveCells(indexMap, i)| <= target.Length && activeIndex <= |cells|
      invariant forall a :: 0 <= a < target.Length ==>
                target[a] == if a < activeIndex then src[cells[a]] else old(target[a])
    {
      ActiveCellsGrow(indexMap, i + 1, |indexMap|);
      if indexMap[i] >= 0 {
        if activeIndex >= target.Length { return IndexOutOfRange; }
        assert cells[activeIndex] == i;
        target[activeIndex] := src[i];
        activeIndex := activeIndex + 1;
      }
    }
    r := Copied;
  }

  /** Copies the values at the front of the source to the active cells. */
  method GlobalKwCopy<T>(indexMap: seq<int>, nactive: nat, target: array<T>, src: seq<T>) returns (r: CopyResult)
    modifies target
    ensures r.SizeMismatch? <==> |src| != nactive || target.Length != |indexMap|
    ensures r.SizeMismatch? ==> target[..] == old(target[..])
    ensures r.Copied? <==>
            |src| == nactive && target.Length == |indexMap| && |ActiveCells(indexMap, |indexMap|)| <= nactive
    ensures r.Copied? ==>
      var cells := ActiveCells(indexMap, |indexMap|);
      InRange(cells, target.Length) && target[..] == Scattered(old(target[..]), cells, src, |cells|)
  {
    if |src| != nactive || target.Length != |indexMap| { return SizeMismatch; }
    ghost var cells := ActiveCells(indexMap, |indexMap|);
    ActiveCellsMeaning(indexMap, |indexMap|);
    var activeIndex := 0;
    for i := 0 to |indexMap|
      invariant activeIndex == |ActiveCells(indexMap, i)| <= |cells| && activeIndex <= |src|
      invariant target[..] == Scattered(old(target[..]), cells, src, activeIndex)
    {
      ActiveCellsGrow(indexMap, i + 1, |indexMap|);
      if indexMap[i] >= 0 {
        if activeIndex >= |src| { return IndexOutOfRange; }
        assert cells[activeIndex] == i;
        ghost var was := target[..];
        target[i] := src[activeIndex];
        assert target[..] == was[i := src[activeIndex]];
        activeIndex := activeIndex + 1;
      }
    }
    r := Copied;
  }

  /** Writes each value of the source to its place in a keyword that is filled with a default. */
  method AllocScatterCopy<T(0)>(src: seq<T>, targetSize: nat, mapping: seq<int>, defValue: T) returns (target: array<T>)
    requires |src| <= |mapping| && InRange(mapping, targetSize)
    ensures fresh(target) && target.Length == targetSize
    ensures target[..] == Scattered(seq(targetSize, x => defValue), mapping, src, |src|)
  {
    target := new T[targetSize];
    for i := 0 to targetSize
      invariant forall x :: 0 <= x < i ==> target[x] == defValue
    {
      target[i] := defValue;
    }
    assert target[..] == seq(targetSize, x => defValue);
    for i := 0 to |src|
      invariant target[..] == Scattered(seq(targetSize, x => defValue), mapping, src, i)
    {
      ghost var was := target[..];
      target[mapping[i]] := src[i];
      assert target[..] == was[mapping[i] := src[i]];
    }
  }

  /**
   * Spreads the source over the cells that are active in `actnum`; there must be just as many values as active cells.
   */
  method AllocGlobalCopy<T(0)>(src: seq<T>, actnum: seq<int>, zero: T) returns (target: array?<T>)
    ensures target != null <==> |src| == |Nonzero(actnum, |actnum|)|
    ensures target != null ==>
      var cells := Nonzero(actnum, |actnum|);
      && fresh(target) && InRange(cells, |actnum|)
      && target[..] == Scattered(seq(|actnum|, x => zero), cells, src, |src|)
  {
    ghost var cells := Nonzero(actnum, |actnum|);
    NonzeroMeaning(actnum, |actnum|);
    assert Nonzero(actnum, 0) == [];
    hide Nonzero, Scattered;
    var copy := new T[|actnum|](x => zero);
    ghost var blank := seq(|actnum|, x => zero);
    assert copy[..] == blank;
    NothingScattered(blank, cells, src);
    var srcIndex := 0;
    for globalIndex := 0 to |actnum|
      invariant srcIndex == |Nonzero(actnum, globalIndex)| <= |cells| && srcIndex <= |src|
      invariant copy[..] == Scattered(blank, cells, src, srcIndex)
    {
      NextNonzero(actnum, globalIndex);
      if actnum[globalIndex] != 0 {
        if srcIndex >= |src| { return null; }
        ScatteredStep(blank, cells, src, srcIndex);
        ghost var was := copy[..];
        copy[globalIndex] := src[srcIndex];
        assert copy[..] == was[globalIndex := src[srcIndex]];
        srcIndex := srcIndex + 1;
      }
    }
    target := if srcIndex < |src| then null else copy;
  }

  /** The cells among the first `m` that are not zero. */
  ghost function Nonzero(actnum: seq<int>, m: nat): seq<int>
    requires m <= |actnum|
  {
    if m == 0 then [] else Nonzero(actnum, m - 1) + if actnum[m - 1] != 0 then [m - 1] else []
  }

  lemma {:induction false} NonzeroMeaning(actnum: seq<int>, m: nat)
    requires m <= |actnum|
    ensures forall a :: 0 <= a < |Nonzero(actnum, m)| ==> 0 <= Nonzero(actnum, m)[a] < m
    ensures forall x :: 0 <= x < m && actnum[x] != 0 <==> x in Nonzero(actnum, m)
    ensures forall a, b :: 0 <= a < b < |Nonzero(actnum, m)| ==> Nonzero(actnum, m)[a] < Nonzero(actnum, m)[b]
  {
    if m > 0 { NonzeroMeaning(actnum, m - 1); }
  }

  lemma {:induction false} NonzeroGrows(actnum: seq<int>, m: nat, n: nat)
    requires m <= n <= |actnum|
    ensures Nonzero(actnum, m) <= Nonzero(actnum, n)
    decreases n
  {
    if m < n { NonzeroGrows(actnum, m, n - 1); }
  }

  /** Going on by one cell. */
  lemma NextNonzero(actnum: seq<int>, i: nat)
    requires i < |actnum|
    ensures
      var now, all := |Nonzero(actnum, i)|, Nonzero(actnum, |actnum|);
      if actnum[i] != 0 then |Nonzero(actnum, i + 1)| == now + 1 <= |all| && all[now] == i
      else |Nonzero(actnum, i + 1)| == now <= |all|
  {
    NonzeroGrows(actnum, i + 1, |actnum|);
  }

  /** Compressing what has been expanded gives the values back. */
  lemma CompressAfterExpand<T>(target: seq<T>, places: seq<int>, data: seq<T>, any: seq<T>)
    requires InRange(places, |target|) && Distinct(places) && |data| == |any| == |places|
    ensures Gathered(Scattered(target, places, data, |data|), places, any, |places|) == data
  {
    ScatteredMeaning(target, places, data, |data|);
  }

  /** Expanding what has been compressed restores the cells at the places, and leaves the others untouched. */
  lemma ExpandAfterCompress<T>(src: seq<T>, places: seq<int>, any: seq<T>, target: seq<T>)
    requires |src| == |target| && InRange(places, |src|) && Distinct(places) && |any| == |places|
    ensures
      var r := Scattered(target, places, Gathered(src, places, any, |places|), |places|);
      forall x :: 0 <= x < |src| ==> r[x] == if x in places then src[x] else target[x]
  {
    ScatteredMeaning(target, places, Gathered(src, places, any, |places|), |places|);
    assert places[..|places|] == places;
  }

  /** In a grid without coarse groups the inverse map lists the active cells: copies between keywords of the right sizes
      are made, and scattering through the inverse map is expanding. */
  lemma PlainGrid(g: GridCells, total: int, indexMap: seq<int>, inverse: seq<int>)
    requires g.Valid() && Indexed(g, Matrix, total, indexMap, inverse)
    requires forall x :: 0 <= x < |g.active| ==> g.group[x] == NO_GROUP
    ensures ActiveCells(indexMap, |indexMap|) == inverse && |inverse| == total
    ensures InRange(inverse, |indexMap|) && Distinct(inverse)
  {
    hide On;
    PlainCells(g, indexMap, |indexMap|);
    ActiveCellsMeaning(indexMap, |indexMap|);
  }

  lemma {:induction false} PlainCells(g: GridCells, indexMap: seq<int>, m: nat)
    requires g.Valid() && MapComplete(g, Matrix, indexMap) && m <= |g.active|
    requires forall x :: 0 <= x < |g.active| ==> g.group[x] == NO_GROUP
    ensures ActiveCells(indexMap, m) == Reps(g, Matrix, m)
  {
    hide On, Reps;
    StartReps(g);
    if m > 0 {
      PlainCells(g, indexMap, m - 1);
      OneMoreRep(g, m - 1);
    }
  }

  lemma StartReps(g: GridCells)
    requires g.Valid()
    ensures Reps(g, Matrix, 0) == []
  {
  }

  lemma OneMoreRep(g: GridCells, x: nat)
    requires g.Valid() && x < |g.active| && g.group[x] == NO_GROUP
    ensures Reps(g, Matrix, x + 1) == Reps(g, Matrix, x) + if On(Matrix, g.active[x]) then [x] else []
    ensures IndexOf(g, Matrix, x) >= 0 <==> On(Matrix, g.active[x])
  {
    hide On;
  }

  /** No two cells share an index. */
  ghost predicate OwnIndices(indexMap: seq<int>) {
    forall x, y :: 0 <= x < |indexMap| && 0 <= y < |indexMap| && indexMap[x] == indexMap[y] && indexMap[x] >= 0 ==>
      x == y
  }

  lemma {:induction false} CountDistinct(places: seq<int>)
    requires Distinct(places)
    ensures |set x | x in places| == |places|
  {
    if places != [] {
      var front, last := places[..|places|-1], places[|places|-1];
      CountDistinct(front);
      assert (set x | x in places) == (set x | x in front) + {last};
    }
  }

  /** No coarse group that is on has more than one cell. */
  ghost predicate SingleCellGroups(g: GridCells)
    requires g.Valid()
  {
    forall x, y :: 0 <= x < |g.active| && 0 <= y < |g.active| && SameCellOrGroup(g, x, y) && GroupIsOn(g, Matrix, x) ==>
      x == y
  }

  /** In any grid the copies between keywords of the right sizes are made just when no coarse group that is on has more
      than one cell, so that no two cells share an index; otherwise they stop at an index out of range. */
  lemma CopyNeedsSingleCellGroups(g: GridCells, total: int, indexMap: seq<int>, inverse: seq<int>)
    requires g.Valid() && Uniform(g, |g.active|) && Indexed(g, Matrix, total, indexMap, inverse)
    ensures |ActiveCells(indexMap, |indexMap|)| <= total <==> SingleCellGroups(g)
    ensures SingleCellGroups(g) ==> ActiveCells(indexMap, |indexMap|) == inverse
  {
    MapsAreInverse(g, Matrix, total, indexMap, inverse);
    SharedIndexIsSharedGroup(g, total, indexMap, inverse);
    hide Indexed, GroupIsOn, On, Uniform, ActiveCells, SingleCellGroups, OwnIndices;
    OwnOrShared(indexMap, inverse);
  }

  lemma SharedIndexIsSharedGroup(g: GridCells, total: int, indexMap: seq<int>, inverse: seq<int>)
    requires g.Valid() && Uniform(g, |g.active|) && Indexed(g, Matrix, total, indexMap, inverse)
    ensures OwnIndices(indexMap) <==> SingleCellGroups(g)
  {
    MapsAreInverse(g, Matrix, total, indexMap, inverse);
    hide Indexed, GroupIsOn, On, Uniform;
    if SingleCellGroups(g) {
      forall x, y | 0 <= x < |indexMap| && 0 <= y < |indexMap| && indexMap[x] == indexMap[y] && indexMap[x] >= 0
        ensures x == y
      {
        assert SameCellOrGroup(g, x, inverse[indexMap[x]]) && SameCellOrGroup(g, y, inverse[indexMap[y]]);
        assert SameCellOrGroup(g, x, y);
      }
    }
  }

  /** Two cells of one coarse group, both active. */
  const PAIR: GridCells := GridCells([1, 1], [0, 0])

  lemma PairSharesIndex()
    ensures PAIR.Valid() && Uniform(PAIR, 2) && Indexed(PAIR, Matrix, 1, [0, 0], [0]) && !SingleCellGroups(PAIR)
  {
    PairIsIndexed();
    hide Indexed;
    assert SameCellOrGroup(PAIR, 0, 1) && SameCellOrGroup(PAIR, 0, 0);
    assert GroupIsOn(PAIR, Matrix, 0);
  }

  lemma PairIsIndexed()
    ensures PAIR.Valid() && Indexed(PAIR, Matrix, 1, [0, 0], [0])
  {
    var g := PAIR;
    assert Actives(g, 0, 0) == [];
    assert Actives(g, 0, 1) == [0];
    assert Actives(g, 0, 2) == [0, 1];
    assert IsRep(g, Matrix, 0) && !IsRep(g, Matrix, 1);
    assert Reps(g, Matrix, 0) == [];
    assert Reps(g, Matrix, 1) == [0];
    assert Reps(g, Matrix, 2) == [0];
  }

  /** For such a pair the copy of a keyword over all cells stops at an index out of range. */
  method PairIsNotCopied<T(0)>(src: seq<T>, target: array<T>) returns (r: CopyResult)
    requires |src| == 2 && target.Length == 1
    modifies target
    ensures r == IndexOutOfRange
  {
    PairSharesIndex();
    CopyNeedsSingleCellGroups(PAIR, 1, [0, 0], [0]);
    r := CompressedKwCopy([0, 0], 1, target, src);
  }

  lemma OwnOrShared(indexMap: seq<int>, inverse: seq<int>)
    requires forall a, b :: 0 <= a < b < |inverse| ==> inverse[a] < inverse[b]
    requires forall a :: 0 <= a < |inverse| ==> 0 <= inverse[a] < |indexMap| && indexMap[inverse[a]] == a
    requires forall x :: 0 <= x < |indexMap| ==> indexMap[x] < |inverse|
    ensures |ActiveCells(indexMap, |indexMap|)| <= |inverse| <==> OwnIndices(indexMap)
    ensures OwnIndices(indexMap) ==> ActiveCells(indexMap, |indexMap|) == inverse
  {
    ActiveCellsMeaning(indexMap, |indexMap|);
    hide ActiveCells, OwnIndices;
    if OwnIndices(indexMap) {
      AllOwn(indexMap, inverse, ActiveCells(indexMap, |indexMap|));
    } else {
      SomeShared(indexMap, inverse, ActiveCells(indexMap, |indexMap|));
    }
  }

  /** Cells with indices of their own are those of the inverse map. */
  lemma AllOwn(indexMap: seq<int>, inverse: seq<int>, cells: seq<int>)
    requires forall a, b :: 0 <= a < b < |inverse| ==> inverse[a] < inverse[b]
    requires forall a :: 0 <= a < |inverse| ==> 0 <= inverse[a] < |indexMap| && indexMap[inverse[a]] == a
    requires forall x :: 0 <= x < |indexMap| ==> indexMap[x] < |inverse|
    requires forall a, b :: 0 <= a < b < |cells| ==> cells[a] < cells[b]
    requires forall x :: x in cells <==> 0 <= x < |indexMap| && indexMap[x] >= 0
    requires OwnIndices(indexMap)
    ensures cells == inverse
  {
    forall x ensures x in cells <==> x in inverse {
      if x in cells { assert inverse[indexMap[x]] == x; }
    }
    SameAscending(cells, inverse);
  }

  /** Where two cells share an index, there are more active cells than the inverse map has. */
  lemma SomeShared(indexMap: seq<int>, inverse: seq<int>, cells: seq<int>)
    requires forall a, b :: 0 <= a < b < |inverse| ==> inverse[a] < inverse[b]
    requires forall a :: 0 <= a < |inverse| ==> 0 <= inverse[a] < |indexMap| && indexMap[inverse[a]] == a
    requires forall x :: 0 <= x < |indexMap| ==> indexMap[x] < |inverse|
    requires forall a, b :: 0 <= a < b < |cells| ==> cells[a] < cells[b]
    requires forall x :: x in cells <==> 0 <= x < |indexMap| && indexMap[x] >= 0
    requires !OwnIndices(indexMap)
    ensures |cells| > |inverse|
  {
    CountDistinct(cells);
    CountDistinct(inverse);
    var those, firsts := set x | x in cells, set x | x in inverse;
    var x, y :| 0 <= x < |indexMap| && 0 <= y < |indexMap| && indexMap[x] == indexMap[y] && indexMap[x] >= 0 && x != y;
    var other := if inverse[indexMap[x]] == x then y else x;
    assert other in those && firsts <= those;
    assert other !in firsts;
    assert |firsts + {other}| == |firsts| + 1;
    SubsetSize(firsts + {other}, those);
  }

  lemma SubsetSize(a: set<int>, b: set<int>)
    requires a <= b
    ensures |a| <= |b|
  {
    assert a + (b - a) == b;
  }

  /** Two ascending lists of the same numbers are the same. */
  lemma {:induction false} SameAscending(a: seq<int>, b: seq<int>)
    requires (forall k, l :: 0 <= k < l < |a| ==> a[k] < a[l]) && (forall k, l :: 0 <= k < l < |b| ==> b[k] < b[l])
    requires forall x :: x in a <==> x in b
    ensures a == b
  {
    assert b == [] || b[0] in b;
    if a != [] {
      assert a[0] in a;
      assert a[0] in b && (b != [] ==> b[0] in a);
      assert a[0] == b[0];
      forall x ensures x in a[1..] <==> x in b[1..] {
        assert x in a <==> x == a[0] || x in a[1..];
        assert x in b <==> x == b[0] || x in b[1..];
        if x in a[1..] || x in b[1..] { assert x != a[0]; }
      }
      SameAscending(a[1..], b[1..]);
    }
  }
}
