/** Filling the fault blocks of a slice: by scanning values for connected blocks, or by taking ids from a keyword. */
module FaultBlockScan {
  import opened Prelude
  import opened Cells
  import opened Reachability
  import opened Slices
  import opened Layers
  import opened BlockTrace
  import opened SliceIndex
  import opened FaultBlocks
  import opened Labelling

  lemma PaintedMore(values: map<Pos, int>, nx: nat, ny: nat, cells: seq<Pos>, c: nat, v: int)
    requires values.Keys == Box(nx, ny) && c < |cells| && 0 <= cells[c].i < nx && 0 <= cells[c].j < ny
    ensures
      var now := Painted(values, Elements(cells[..c]), v);
      && cells[c] in values && cells[c] in now && now[cells[c]] in {values[cells[c]], v}
      && now[cells[c] := v] == Painted(values, Elements(cells[..c+1]), v)
  {
    assert cells[..c+1] == cells[..c] + [cells[c]];
    ElementsOfOneMore(cells[..c], cells[c]);
  }

  lemma PaintedNothing(values: map<Pos, int>, v: int)
    ensures Elements([]) == {} && Painted(values, {}, v) == values
  {
  }

  /** Adds one cell to a block of the store. */
  method AddCellTo(fl: FaultBlockLayer, block: FaultBlock, i: int, j: int)
    requires fl.Valid() && block in fl.blocks && 0 <= i < fl.nx && 0 <= j < fl.ny
    modifies block`iList, block`jList, block`globalIndexList, block`content, fl.layer, fl.layer.cells
    ensures fl.Valid() && block.content == old(block.content) + [Pos(i, j)]
    ensures fl.layer.slice.Values() == old(fl.layer.slice).Values()[Pos(i, j) := block.blockId]
    ensures old(fl.layer.slice).ExactEdges() && old(fl.layer.slice).Values()[Pos(i, j)] in {0, block.blockId} ==>
              fl.layer.slice.ExactEdges()
  {
    hide Layer.Valid, Slice.CellSet, Slice.ExactEdges;
    ghost var s0 :| 0 <= s0 < |fl.blocks| && fl.blocks[s0] == block;
    assert fl.StoredAt(s0);
    ghost var s := fl.layer.slice;
    var ok := block.AddCell(i, j);
    forall s | 0 <= s < |fl.blocks| ensures fl.StoredAt(s) {
      assert old(fl.StoredAt(s));
    }
    CellExact(s, fl.layer.slice, Pos(i, j), block.blockId);
  }

  lemma CellExact(s: Slice, t: Slice, p: Pos, v: int)
    requires s.Wf() && InBox(s.nx, s.ny, p) && s.CellSet(t, p, v)
    ensures t.Wf() && (s.ExactEdges() && s.Values()[p] in {0, v} ==> t.ExactEdges())
  {
    if s.ExactEdges() && s.Values()[p] in {0, v} { CellSetKeepsExactEdges(s, t, p, v); }
  }

  /** Adds cells to a block of the store, one after the other. */
  method AddCells(fl: FaultBlockLayer, block: FaultBlock, iList: seq<int>, jList: seq<int>, ghost cells: seq<Pos>)
    requires fl.Valid() && block in fl.blocks && block.content == []
    requires iList == Is(cells) && jList == Js(cells)
    requires forall p :: p in cells ==> 0 <= p.i < fl.nx && 0 <= p.j < fl.ny
    modifies block`iList, block`jList, block`globalIndexList, block`content, fl.layer, fl.layer.cells
    ensures fl.Valid() && block.content == cells
    ensures fl.layer.slice.Values() == Painted(old(fl.layer.slice).Values(), Elements(cells), block.blockId)
    ensures old(fl.layer.slice).ExactEdges() && (forall p :: p in cells ==> old(fl.layer.slice).Values()[p] == 0) ==>
              fl.layer.slice.ExactEdges()
  {
    hide Layer.Valid, Slice.Values, Slice.ExactEdges, FaultBlockLayer.ValidStore, Painted, Elements;
    ghost var values := fl.layer.slice.Values();
    ghost var exact := fl.layer.slice.ExactEdges() && (forall p :: p in cells ==> values[p] == 0);
    PaintedNothing(values, block.blockId);
    assert cells[..0] == [];
    for c := 0 to |iList|
      invariant fl.Valid() && block.content == cells[..c]
      invariant fl.layer.slice.Values() == Painted(values, Elements(cells[..c]), block.blockId)
      invariant exact ==> fl.layer.slice.ExactEdges()
    {
      assert cells[c] in cells;
      PaintedMore(values, fl.nx, fl.ny, cells, c, block.blockId);
      AddCellTo(fl, block, iList[c], jList[c]);
      assert cells[..c+1] == cells[..c] + [cells[c]];
    }
    assert cells[..|iList|] == cells;
  }

  /** Makes a new block, with the next free id, of the given cells. */
  method NewBlock(fl: FaultBlockLayer, iList: seq<int>, jList: seq<int>, ghost cells: seq<Pos>)
    returns (block: FaultBlock)
    requires fl.Valid() && iList == Is(cells) && jList == Js(cells)
    requires forall p :: p in cells ==> 0 <= p.i < fl.nx && 0 <= p.j < fl.ny
    modifies fl`blockMap, fl`blocks, fl`used, fl.layer, fl.layer.cells
    ensures fl.Valid() && fresh(block) && fl.blocks == old(fl.blocks) + [block] && block.content == cells
    ensures block.blockId == (if old(|fl.blockMap|) == 0 then 1 else old(|fl.blockMap|)) &&
            block.blockId !in old(fl.used)
    ensures |fl.blockMap| == block.blockId + 1 && fl.used == old(fl.used) + {block.blockId}
    ensures fl.layer.slice.Values() == Painted(old(fl.layer.slice).Values(), Elements(cells), block.blockId)
    ensures old(fl.layer.slice).ExactEdges() && (forall p :: p in cells ==> old(fl.layer.slice).Values()[p] == 0) ==>
              fl.layer.slice.ExactEdges()
  {
    hide Layer.Valid, Slice.Values, Slice.ExactEdges, FaultBlockLayer.ValidStore, Painted, Elements;
    hide FaultBlockLayer.Lookup;
    ghost var known := fl.blocks;
    var id := fl.NextId();
    var added := fl.AddBlock(id);
    block := added;
    assert fl.blocks[|known|] == block;
    AddCells(fl, block, iList, jList, cells);
  }

  /**
   * The new blocks hold the cells of the blocks found, each cell once and the first one in front, and carry consecutive
   * ids.
   */
  ghost predicate BlocksHold(work: map<Pos, int>, firsts: seq<Pos>, base: int, blocks: seq<FaultBlock>)
    requires AllIn(work, firsts)
    reads blocks
  {
    && |blocks| == |firsts|
    && forall c :: 0 <= c < |firsts| ==>
         && blocks[c].blockId == base + c
         && Elements(blocks[c].content) == BlockOf(work, firsts[c])
         && Distinct(blocks[c].content) && blocks[c].content != [] && blocks[c].content[0] == firsts[c]
  }

  /** What a scan of the values `work0` has made of the store when it has visited the cells before `end`. */
  ghost predicate ScanResult(fl: FaultBlockLayer, work0: map<Pos, int>, labels0: map<Pos, int>, base: int,
                             blocks0: seq<FaultBlock>, exact: bool, firsts: seq<Pos>, end: Pos)
    reads fl, fl.layer, fl.layer.cells, fl.blocks
    ensures ScanResult(fl, work0, labels0, base, blocks0, exact, firsts, end) ==>
              fl.Valid() && Scanned(work0, firsts, end)
  {
    && fl.Valid() && work0.Keys == labels0.Keys == Box(fl.nx, fl.ny)
    && Scanned(work0, firsts, end)
    && Labelled(work0, firsts, base, labels0, fl.layer.slice.Values())
    && |blocks0| <= |fl.blocks| && fl.blocks[..|blocks0|] == blocks0
    && BlocksHold(work0, firsts, base, fl.blocks[|blocks0|..])
    && (if |fl.blockMap| == 0 then 1 else |fl.blockMap|) == base + |firsts|
    && (exact ==> fl.layer.slice.ExactEdges() && forall p :: p in labels0 ==> labels0[p] == 0)
  }

  /** The state of a scan: the blocks found so far have been erased from the work layer. */
  ghost predicate ScanState(fl: FaultBlockLayer, work: Layer, work0: map<Pos, int>, labels0: map<Pos, int>, base: int,
                            blocks0: seq<FaultBlock>, exact: bool, firsts: seq<Pos>, end: Pos)
    reads fl, fl.layer, fl.layer.cells, fl.blocks, work, work.cells
  {
    && ScanResult(fl, work0, labels0, base, blocks0, exact, firsts, end)
    && work.Valid() && work != fl.layer && work.cells != fl.layer.cells && work.nx == fl.nx && work.ny == fl.ny
    && work.slice.Values() == Painted(work0, Covered(work0, firsts), 0)
  }

  lemma BlocksHoldMore(work: map<Pos, int>, firsts: seq<Pos>, base: int, blocks: seq<FaultBlock>, p: Pos,
                       block: FaultBlock)
    requires AllIn(work, firsts) && p in work && BlocksHold(work, firsts, base, blocks)
    requires block.blockId == base + |firsts| && Elements(block.content) == BlockOf(work, p) && Distinct(block.content)
    requires block.content != [] && block.content[0] == p
    ensures AllIn(work, firsts + [p]) && BlocksHold(work, firsts + [p], base, blocks + [block])
  {
    hide Elements, Distinct, BlockOf;
  }

  /** The value of the next cell in the work layer: zero if the cell is zero or was erased. */
  lemma CellAhead(work0: map<Pos, int>, nx: nat, ny: nat, firsts: seq<Pos>, p: Pos)
    requires work0.Keys == Box(nx, ny) && 0 <= p.i < nx && 0 <= p.j < ny && Scanned(work0, firsts, p)
    ensures
      var now := Painted(work0, Covered(work0, firsts), 0);
      && p in work0 && p in now
      && (now[p] == 0 ==> Scanned(work0, firsts, Pos(p.i + 1, p.j)))
      && (now[p] != 0 ==> now[p] == work0[p] && p !in Covered(work0, firsts))
  {
    hide Scanned, Covered;
    var now := Painted(work0, Covered(work0, firsts), 0);
    if now[p] == 0 { ScanSkips(work0, firsts, p); }
  }

  /** The cells listed from a cell that is left over are the cells of its block. */
  lemma ListedBlock(work0: map<Pos, int>, firsts: seq<Pos>, p: Pos)
    requires AllIn(work0, firsts) && p in work0 && work0[p] != 0 && p !in Covered(work0, firsts)
    ensures
      var cells := BlockOrder(Region(Painted(work0, Covered(work0, firsts), 0), work0[p]), p);
      Elements(cells) == BlockOf(work0, p) && Distinct(cells) && cells != [] && cells[0] == p
  {
    var now := Painted(work0, Covered(work0, firsts), 0);
    BlockAfterErasing(work0, firsts, p);
    assert p in Region(now, work0[p]);
    hide *;
    BlockOrderIsComponent(Region(now, work0[p]), p);
    OrderStarts(Region(now, work0[p]), p);
  }

  lemma BlockIsInside(work: map<Pos, int>, p: Pos)
    requires p in work
    ensures forall q :: q in BlockOf(work, p) ==> q in work
  {
  }

  lemma PaintedTwice(values: map<Pos, int>, s: set<Pos>, t: set<Pos>, v: int)
    ensures Painted(Painted(values, s, v), t, v) == Painted(values, s + t, v)
  {
  }

  /** Each of them is a cell of the layer that was left over, and erasing them covers the new block as well. */
  lemma CellsOfBlock(work0: map<Pos, int>, nx: nat, ny: nat, firsts: seq<Pos>, p: Pos)
    requires work0.Keys == Box(nx, ny) && AllIn(work0, firsts)
    requires p in work0 && work0[p] != 0 && p !in Covered(work0, firsts)
    ensures
      var now := Painted(work0, Covered(work0, firsts), 0);
      var cells := BlockOrder(Region(now, work0[p]), p);
      && Elements(cells) == BlockOf(work0, p) && Distinct(cells) && cells != [] && cells[0] == p
      && (forall q :: q in cells ==> 0 <= q.i < nx && 0 <= q.j < ny && q in work0 && q !in Covered(work0, firsts))
      && AllIn(work0, firsts + [p])
      && Painted(now, Elements(cells), 0) == Painted(work0, Covered(work0, firsts + [p]), 0)
  {
    var now := Painted(work0, Covered(work0, firsts), 0);
    var cells := BlockOrder(Region(now, work0[p]), p);
    hide BlockOf, Covered, BlockOrder, Region, Distinct, Painted;
    ListedBlock(work0, firsts, p);
    CoveredMore(work0, firsts, p);
    UncoveredBlock(work0, firsts, p);
    BlockIsInside(work0, p);
    PaintedTwice(work0, Covered(work0, firsts), Elements(cells), 0);
    forall q | q in cells ensures q in work0 && q !in Covered(work0, firsts) {
      assert q in Elements(cells);
    }
  }

  lemma UncoveredLabels(work0: map<Pos, int>, firsts: seq<Pos>, base: int, labels0: map<Pos, int>,
                        labels: map<Pos, int>, cells: seq<Pos>)
    requires AllIn(work0, firsts) && Labelled(work0, firsts, base, labels0, labels)
    requires forall q :: q in cells ==> q in work0 && q !in Covered(work0, firsts)
    ensures forall q :: q in cells ==> q in labels && q in labels0 && labels[q] == labels0[q]
  {
    hide Covered, BlockOf;
  }

  /** Visits one cell: if it is not zero, its block is erased from the work layer and becomes a new fault block. */
  method ScanCell(fl: FaultBlockLayer, work: Layer, i: int, j: int, ghost work0: map<Pos, int>,
                  ghost labels0: map<Pos, int>, ghost base: int, ghost blocks0: seq<FaultBlock>, ghost exact: bool,
                  ghost firsts: seq<Pos>)
    returns (ghost more: seq<Pos>)
    requires 0 <= i < fl.nx && 0 <= j < fl.ny
    requires ScanState(fl, work, work0, labels0, base, blocks0, exact, firsts, Pos(i, j))
    modifies fl`blockMap, fl`blocks, fl`used, fl.layer, fl.layer.cells, work, work.cells
    ensures ScanState(fl, work, work0, labels0, base, blocks0, exact, more, Pos(i + 1, j))
    ensures (more == firsts && fl.used == old(fl.used)) ||
            (more == firsts + [Pos(i, j)] && fl.used == old(fl.used) + {base + |firsts|})
  {
    hide Layer.Valid, Slice.Values, Slice.ExactEdges, FaultBlockLayer.ValidStore, FaultBlockLayer.Lookup;
    hide Painted, Elements, Distinct, Scanned, Labelled, Covered, BlockOf, Component, Region, BlockOrder, BlocksHold;
    hide Erased, AllIn, IsFirst, FaultBlock.Consistent, FaultBlockLayer.StoredAt, Slice.LooseEdges, Slice.Wf;
    ghost var p := Pos(i, j);
    CellAhead(work0, fl.nx, fl.ny, firsts, p);
    var v := work.CellValue(i, j);
    if v == 0 {
      more := firsts;
    } else {
      ghost var now, labels, known := work.slice.Values(), fl.layer.slice.Values(), fl.blocks;
      ghost var cells := BlockOrder(Region(now, v), p);
      more := firsts + [p];
      CellsOfBlock(work0, fl.nx, fl.ny, firsts, p);
      ScanMeets(work0, firsts, p);
      LabelsMore(work0, firsts, p, base, labels0, labels);
      UncoveredLabels(work0, firsts, base, labels0, labels, cells);
      ErasedIsPainted(now, cells);
      var found, iList, jList := TraceBlockContent(work, true, i, j, v);
      var block := NewBlock(fl, iList, jList, cells);
      BlocksHoldMore(work0, firsts, base, known[|blocks0|..], p, block);
      assert fl.blocks[|blocks0|..] == known[|blocks0|..] + [block];
      assert fl.blocks[..|blocks0|] == blocks0;
    }
  }

  lemma ErasedIsPainted(values: map<Pos, int>, cells: seq<Pos>)
    ensures Erased(values, true, cells) == Painted(values, Elements(cells), 0)
  {
  }

  /** The id that the next block gets. */
  ghost function NextIdOf(blockMap: seq<int>): int {
    if |blockMap| == 0 then 1 else |blockMap|
  }

  /** The ids that a scan gives out. */
  ghost function NewIds(base: int, count: nat): set<int> {
    if count == 0 then {} else NewIds(base, count - 1) + {base + count - 1}
  }

  lemma OneMoreId(base: int, count: nat)
    ensures NewIds(base, 0) == {} && NewIds(base, count + 1) == NewIds(base, count) + {base + count}
  {
  }

  /**
   * Every block of a layer of cells becomes a new fault block, in the order of their first cells; the layer is erased.
   */
  method ScanLayer(fl: FaultBlockLayer, work: Layer, ghost exact: bool) returns (ghost firsts: seq<Pos>)
    requires fl.Valid() && work.Valid() && work != fl.layer && work.cells != fl.layer.cells
    requires work.nx == fl.nx && work.ny == fl.ny
    requires exact ==> fl.layer.slice.ExactEdges() && forall p :: p in fl.layer.slice.Values() ==>
             fl.layer.slice.Values()[p] == 0
    modifies fl`blockMap, fl`blocks, fl`used, fl.layer, fl.layer.cells, work, work.cells
    ensures ScanResult(fl, old(work.slice).Values(), old(fl.layer.slice).Values(), NextIdOf(old(fl.blockMap)),
                       old(fl.blocks), exact, firsts, Pos(0, fl.ny))
    ensures work.Valid() && forall p :: p in work.slice.Values() ==> work.slice.Values()[p] == 0
    ensures fl.used == old(fl.used) + NewIds(NextIdOf(old(fl.blockMap)), |firsts|)
  {
    hide NewIds, ScanState, ScanResult, Layer.Valid, Slice.Values, Slice.ExactEdges, FaultBlockLayer.ValidStore;
    ghost var work0, labels0, blocks0 := work.slice.Values(), fl.layer.slice.Values(), fl.blocks;
    ghost var base := NextIdOf(fl.blockMap);
    firsts := [];
    ScanStateStarts(fl, work, base, exact);
    OneMoreId(base, 0);
    for j := 0 to work.ny
      invariant ScanState(fl, work, work0, labels0, base, blocks0, exact, firsts, Pos(0, j))
      invariant fl.used == old(fl.used) + NewIds(base, |firsts|)
    {
      for i := 0 to work.nx
        invariant ScanState(fl, work, work0, labels0, base, blocks0, exact, firsts, Pos(i, j))
        invariant fl.used == old(fl.used) + NewIds(base, |firsts|)
      {
        OneMoreId(base, |firsts|);
        firsts := ScanCell(fl, work, i, j, work0, labels0, base, blocks0, exact, firsts);
      }
      ScanStateNextRow(fl, work, work0, labels0, base, blocks0, exact, firsts, j);
    }
    ScanStateEnds(fl, work, work0, labels0, base, blocks0, exact, firsts);
  }

  lemma ScanStateStarts(fl: FaultBlockLayer, work: Layer, base: int, exact: bool)
    requires fl.Valid() && work.Valid() && work != fl.layer && work.cells != fl.layer.cells
    requires work.nx == fl.nx && work.ny == fl.ny
    requires exact ==> fl.layer.slice.ExactEdges() && forall p :: p in fl.layer.slice.Values() ==>
             fl.layer.slice.Values()[p] == 0
    requires base == NextIdOf(fl.blockMap)
    ensures ScanState(fl, work, work.slice.Values(), fl.layer.slice.Values(), base, fl.blocks, exact, [], Pos(0, 0))
  {
    hide Scanned, Labelled, Covered, Layer.Valid, Slice.ExactEdges, FaultBlockLayer.ValidStore, Slice.Values, Painted;
    PaintedNothing(work.slice.Values(), 0);
    ScanStarts(work.slice.Values(), fl.nx, fl.ny, fl.layer.slice.Values(), base);
    assert fl.blocks[..|fl.blocks|] == fl.blocks && fl.blocks[|fl.blocks|..] == [];
  }

  lemma ScanStateNextRow(fl: FaultBlockLayer, work: Layer, work0: map<Pos, int>, labels0: map<Pos, int>, base: int,
                         blocks0: seq<FaultBlock>, exact: bool, firsts: seq<Pos>, j: int)
    requires ScanState(fl, work, work0, labels0, base, blocks0, exact, firsts, Pos(work.nx, j))
    ensures ScanState(fl, work, work0, labels0, base, blocks0, exact, firsts, Pos(0, j + 1))
  {
    hide Scanned, Labelled, Covered, Layer.Valid, Slice.ExactEdges, FaultBlockLayer.ValidStore, BlocksHold;
    hide Slice.Values;
    ScanNextRow(work0, fl.nx, fl.ny, firsts, j);
  }

  lemma ScanStateEnds(fl: FaultBlockLayer, work: Layer, work0: map<Pos, int>, labels0: map<Pos, int>, base: int,
                      blocks0: seq<FaultBlock>, exact: bool, firsts: seq<Pos>)
    requires ScanState(fl, work, work0, labels0, base, blocks0, exact, firsts, Pos(0, work.ny))
    ensures work.Valid() && work.ny == fl.ny &&
            ScanResult(fl, work0, labels0, base, blocks0, exact, firsts, Pos(0, work.ny))
    ensures forall p :: p in work.slice.Values() ==> work.slice.Values()[p] == 0
  {
    hide Scanned, Labelled, Covered, Layer.Valid, Slice.ExactEdges, FaultBlockLayer.ValidStore, BlocksHold;
    hide Slice.Values;
    ScanEnds(work0, fl.nx, fl.ny, firsts);
  }

  /** The values that are scanned: the positive ones, and one new value for all the others. */
  ghost function WorkValues(values: map<Pos, int>, max: int): map<Pos, int> {
    map p | p in values :: if values[p] > 0 then values[p] else max + 1
  }

  ghost predicate IsMaximum(values: map<Pos, int>, max: int) {
    && max >= 0 && (forall p :: p in values ==> values[p] <= max)
    && (max == 0 || exists p :: p in values && values[p] == max)
  }

  /** The positive values of the cells visited so far, and zero elsewhere. */
  ghost function Positives(values: map<Pos, int>, end: Pos): map<Pos, int> {
    map p | p in values :: if Before(p, end) && values[p] > 0 then values[p] else 0
  }

  ghost predicate IsMaximumBefore(values: map<Pos, int>, max: int, end: Pos) {
    && max >= 0 && (forall p :: p in values && Before(p, end) ==> values[p] <= max)
    && (max == 0 || exists p :: p in values && values[p] == max)
  }

  lemma PositivesStart(values: map<Pos, int>, nx: nat, ny: nat, blank: map<Pos, int>)
    requires values.Keys == blank.Keys == Box(nx, ny) && forall p :: p in blank ==> blank[p] == 0
    ensures Positives(values, Pos(0, 0)) == blank && IsMaximumBefore(values, 0, Pos(0, 0))
  {
  }

  lemma PositivesStep(values: map<Pos, int>, nx: nat, ny: nat, p: Pos, max: int)
    requires values.Keys == Box(nx, ny) && p in values && IsMaximumBefore(values, max, p)
    ensures
      var next, now := Pos(p.i + 1, p.j), Positives(values, p);
      && p in now && now[p] == 0
      && Positives(values, next) == (if values[p] > 0 then now[p := values[p]] else now)
      && IsMaximumBefore(values, if values[p] > 0 && values[p] > max then values[p] else max, next)
  {
    BeforeNext(p.i, p.j);
    hide Before;
  }

  lemma PositivesNextRow(values: map<Pos, int>, nx: nat, ny: nat, j: int, max: int)
    requires values.Keys == Box(nx, ny) && IsMaximumBefore(values, max, Pos(nx, j))
    ensures Positives(values, Pos(nx, j)) == Positives(values, Pos(0, j + 1))
    ensures IsMaximumBefore(values, max, Pos(0, j + 1))
  {
    BeforeNextRow(nx, ny, j);
    hide Before;
  }

  lemma PositivesEnd(values: map<Pos, int>, nx: nat, ny: nat, max: int)
    requires values.Keys == Box(nx, ny) && IsMaximumBefore(values, max, Pos(0, ny))
    ensures IsMaximum(values, max)
    ensures Replaced(Positives(values, Pos(0, ny)), 0, max + 1, Pos(0, ny)) == WorkValues(values, max)
  {
  }

  /** Copies the positive values of a slice into a new layer, and all the others as one new value. */
  method MakeWorkLayer(data: seq<int>, nx: nat, ny: nat, nz: nat, k: nat) returns (work: Layer, max: int)
    requires |data| == GridSize(nx, ny, nz) && k < nz
    ensures work.Valid() && fresh(work) && fresh(work.cells) && work.nx == nx && work.ny == ny
    ensures IsMaximum(KwSlice(data, nx, ny, nz, k), max)
    ensures work.slice.Values() == WorkValues(KwSlice(data, nx, ny, nz, k), max)
  {
    hide *;
    ghost var values := KwSlice(data, nx, ny, nz, k);
    work := new Layer(nx, ny);
    max := 0;
    BlankValues(nx, ny);
    PositivesStart(values, nx, ny, work.slice.Values());
    for j := 0 to ny
      invariant work.Valid() && fresh(work) && fresh(work.cells)
      invariant work.slice.Values() == Positives(values, Pos(0, j)) && IsMaximumBefore(values, max, Pos(0, j))
    {
      for i := 0 to nx
        invariant work.Valid() && fresh(work) && fresh(work.cells)
        invariant work.slice.Values() == Positives(values, Pos(i, j)) && IsMaximumBefore(values, max, Pos(i, j))
      {
        var blockId := KwValue(data, nx, ny, nz, k, i, j);
        PositivesStep(values, nx, ny, Pos(i, j), max);
        if blockId > 0 {
          work.SetCellValue(i, j, blockId);
          max := if blockId > max then blockId else max;
        }
      }
      PositivesNextRow(values, nx, ny, j, max);
    }
    PositivesEnd(values, nx, ny, max);
    var count := work.ReplaceCellValues(0, max + 1);
  }

  lemma BlankValues(nx: nat, ny: nat)
    ensures forall p :: p in BlankSlice(nx, ny).Values() ==> BlankSlice(nx, ny).Values()[p] == 0
  {
  }

  /**
   * Scans one slice of a keyword for connected blocks, and gives each block an id of its own; cells that are not
   * positive count as one value. A keyword of the wrong type or size is refused.
   */
  method ScanKw(fl: FaultBlockLayer, isInt: bool, data: seq<int>, ghost exact: bool)
    returns (ok: bool, ghost firsts: seq<Pos>, ghost max: int)
    requires fl.Valid()
    requires exact ==> fl.layer.slice.ExactEdges() && forall p :: p in fl.layer.slice.Values() ==>
             fl.layer.slice.Values()[p] == 0
    modifies fl`blockMap, fl`blocks, fl`used, fl.layer, fl.layer.cells
    ensures ok == (isInt && |data| == GridSize(fl.nx, fl.ny, fl.nz))
    ensures fl.Valid()
    ensures !ok ==>
            fl.blocks == old(fl.blocks) && fl.blockMap == old(fl.blockMap) && fl.layer.slice == old(fl.layer.slice)
    ensures fl.used == old(fl.used) + NewIds(NextIdOf(old(fl.blockMap)), |firsts|) && (!ok ==> firsts == [])
    ensures ok ==>
      var values := KwSlice(data, fl.nx, fl.ny, fl.nz, fl.k);
      && IsMaximum(values, max)
      && ScanResult(fl, WorkValues(values, max), old(fl.layer.slice).Values(), NextIdOf(old(fl.blockMap)),
                    old(fl.blocks), exact, firsts, Pos(0, fl.ny))
  {
    hide ScanResult, Layer.Valid, Slice.Values, Slice.ExactEdges, FaultBlockLayer.ValidStore, WorkValues, IsMaximum;
    hide KwSlice;
    firsts, max := [], 0;
    OneMoreId(NextIdOf(fl.blockMap), 0);
    if |data| != GridSize(fl.nx, fl.ny, fl.nz) { return false, firsts, max; }
    if !isInt { return false, firsts, max; }
    var work, m := MakeWorkLayer(data, fl.nx, fl.ny, fl.nz, fl.k);
    max := m;
    firsts := ScanLayer(fl, work, exact);
    ok := true;
  }

  /**
   * After a scan of a keyword two cells have the same label just when they are connected through cells of equal
   * value, where the values that are not positive count as equal; and every label is a new, positive id.
   */
  lemma ScannedKwIsLabelled(fl: FaultBlockLayer, values: map<Pos, int>, max: int, labels0: map<Pos, int>, base: int,
                            blocks0: seq<FaultBlock>, exact: bool, firsts: seq<Pos>, p: Pos, q: Pos)
    requires IsMaximum(values, max) && base >= 1 && p in values && q in values
    requires ScanResult(fl, WorkValues(values, max), labels0, base, blocks0, exact, firsts, Pos(0, fl.ny))
    ensures
      var labels := fl.layer.slice.Values();
      && p in labels && q in labels
      && base <= labels[p] < base + |firsts|
      && (labels[p] == labels[q] <==> q in BlockOf(WorkValues(values, max), p))
  {
    hide Scanned, Covered, Layer.Valid, Slice.Values, Slice.ExactEdges, FaultBlockLayer.ValidStore, BlocksHold, BlockOf;
    var work := WorkValues(values, max);
    assert work[p] != 0 && work[q] != 0;
    LabelsAreComponents(work, fl.nx, fl.ny, firsts, base, labels0, fl.layer.slice.Values(), p, q);
  }

  /**
   * After a scan each cell is in the list of exactly one of the new blocks, the one that its label names, just once.
   */
  lemma ScannedCellInOneBlock(fl: FaultBlockLayer, values: map<Pos, int>, max: int, labels0: map<Pos, int>, base: int,
                              blocks0: seq<FaultBlock>, exact: bool, firsts: seq<Pos>, p: Pos, c: nat)
    requires IsMaximum(values, max) && p in values && |blocks0| + c < |fl.blocks|
    requires ScanResult(fl, WorkValues(values, max), labels0, base, blocks0, exact, firsts, Pos(0, fl.ny))
    ensures
      var block := fl.blocks[|blocks0| + c];
      && block.blockId == base + c && Distinct(block.content)
      && p in fl.layer.slice.Values()
      && (p in block.content <==> fl.layer.slice.Values()[p] == block.blockId)
  {
    hide Scanned, Covered, Layer.Valid, Slice.Values, Slice.ExactEdges, FaultBlockLayer.ValidStore, BlockOf, Distinct;
    var work := WorkValues(values, max);
    var block := fl.blocks[|blocks0| + c];
    assert fl.blocks[|blocks0|..][c] == block;
    var d := LabelAt(work, fl.nx, fl.ny, firsts, base, labels0, fl.layer.slice.Values(), p);
    assert p in block.content <==> p in Elements(block.content);
    if c != d { BlocksApart(work, firsts, Pos(0, fl.ny), c, d); }
  }

  /** The first cell in the list of a new block is the first cell with its label, row by row. */
  lemma ScannedBlockStartsFirst(fl: FaultBlockLayer, values: map<Pos, int>, max: int, labels0: map<Pos, int>, base: int,
                                blocks0: seq<FaultBlock>, exact: bool, firsts: seq<Pos>, c: nat, q: Pos)
    requires IsMaximum(values, max) && |blocks0| + c < |fl.blocks|
    requires ScanResult(fl, WorkValues(values, max), labels0, base, blocks0, exact, firsts, Pos(0, fl.ny))
    ensures
      var block, labels := fl.blocks[|blocks0| + c], fl.layer.slice.Values();
      && block.content != [] && block.content[0] in labels && labels[block.content[0]] == block.blockId
      && (q in labels && labels[q] == block.blockId ==> !Before(q, block.content[0]))
  {
    var work := WorkValues(values, max);
    var block := fl.blocks[|blocks0| + c];
    assert fl.blocks[|blocks0|..][c] == block;
    var p := firsts[c];
    assert IsFirst(work, p) && p in values;
    ScannedCellInOneBlock(fl, values, max, labels0, base, blocks0, exact, firsts, p, c);
    assert p in block.content;
    if q in fl.layer.slice.Values() && fl.layer.slice.Values()[q] == block.blockId {
      ScannedCellInOneBlock(fl, values, max, labels0, base, blocks0, exact, firsts, q, c);
      assert q in Elements(block.content);
    }
  }
}
