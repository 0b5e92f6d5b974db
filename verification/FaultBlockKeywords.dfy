/** Taking block ids from a keyword, writing them to one, copying blocks, and tracing the boundary of a block. */
module FaultBlockKeywords {
  import opened Prelude
  import opened Cells
  import opened Reachability
  import opened Slices
  import opened Layers
  import opened BlockTrace
  import opened SliceIndex
  import opened FaultBlocks
  import opened FaultBlockScan
  import opened BoundaryWalk
  import opened BoundaryLoop
  import opened EdgeTrace
  import opened Labelling

  /** The labels once the ids of the cells before `end` have been taken over. */
  ghost function Loaded(values: map<Pos, int>, labels: map<Pos, int>, end: Pos): map<Pos, int> {
    map p | p in labels :: if p in values && Before(p, end) && values[p] > 0 then values[p] else labels[p]
  }

  lemma LoadedStart(values: map<Pos, int>, labels: map<Pos, int>, nx: nat, ny: nat)
    requires values.Keys == labels.Keys == Box(nx, ny)
    ensures Loaded(values, labels, Pos(0, 0)) == labels
  {
  }

  lemma LoadedStep(values: map<Pos, int>, labels: map<Pos, int>, nx: nat, ny: nat, i: int, j: int)
    requires values.Keys == labels.Keys == Box(nx, ny) && 0 <= i < nx && 0 <= j < ny
    ensures
      var p, now := Pos(i, j), Loaded(values, labels, Pos(i, j));
      && p in values && p in now && now[p] == labels[p]
      && Loaded(values, labels, Pos(i + 1, j)) == if values[p] > 0 then now[p := values[p]] else now
  {
    BeforeNext(i, j);
    hide Before;
  }

  lemma LoadedNextRow(values: map<Pos, int>, labels: map<Pos, int>, nx: nat, ny: nat, j: int)
    requires values.Keys == labels.Keys == Box(nx, ny)
    ensures Loaded(values, labels, Pos(nx, j)) == Loaded(values, labels, Pos(0, j + 1))
  {
    BeforeNextRow(nx, ny, j);
    hide Before;
  }

  /** The cells with a given id before cell (i, j), row by row. */
  ghost function CellsWith(values: map<Pos, int>, id: int, nx: nat, i: nat, j: nat): seq<Pos>
    decreases j, i
  {
    if i > 0 then
      var p := Pos(i - 1, j);
      CellsWith(values, id, nx, i - 1, j) + if p in values && values[p] == id then [p] else []
    else if j > 0 then CellsWith(values, id, nx, nx, j - 1)
    else []
  }

  /** They are exactly the cells with the id, each once, in row order. */
  lemma {:induction false} CellsWithMeaning(values: map<Pos, int>, id: int, nx: nat, ny: nat, i: nat, j: nat)
    requires values.Keys == Box(nx, ny) && i <= nx && (j < ny || (i == 0 && j == ny))
    ensures forall p :: p in CellsWith(values, id, nx, i, j) <==> p in values && values[p] == id && Before(p, Pos(i, j))
    ensures forall a, b :: 0 <= a < b < |CellsWith(values, id, nx, i, j)| ==>
              Before(CellsWith(values, id, nx, i, j)[a], CellsWith(values, id, nx, i, j)[b])
    decreases j, i
  {
    if i > 0 {
      CellsWithMeaning(values, id, nx, ny, i - 1, j);
    } else if j > 0 {
      CellsWithMeaning(values, id, nx, ny, nx, j - 1);
    }
  }

  /** The lists of the blocks of a store, by their ids. */
  ghost function Contents(fl: FaultBlockLayer): imap<int, seq<Pos>>
    requires fl.ValidStore()
    reads fl, fl.blocks
  {
    imap id: int | fl.Lookup(id) != null :: fl.Lookup(id).content
  }

  ghost function ListOf(contents: imap<int, seq<Pos>>, id: int): seq<Pos> {
    if id in contents then contents[id] else []
  }

  /** Takes over the id of one cell. */
  method LoadCell(fl: FaultBlockLayer, i: int, j: int, id: int)
    requires fl.Valid() && 0 <= i < fl.nx && 0 <= j < fl.ny && id > 0
    modifies fl`blockMap, fl`blocks, fl`used, fl.blocks, fl.layer, fl.layer.cells
    ensures fl.Valid() && fl.used == old(fl.used) + {id}
    ensures fl.layer.slice.Values() == old(fl.layer.slice).Values()[Pos(i, j) := id]
    ensures old(fl.layer.slice).ExactEdges() && old(fl.layer.slice).Values()[Pos(i, j)] in {0, id} ==>
              fl.layer.slice.ExactEdges()
    ensures |old(fl.blocks)| <= |fl.blocks| && fl.blocks[..|old(fl.blocks)|] == old(fl.blocks)
    ensures forall s :: 0 <= s < |fl.blocks| ==> fl.blocks[s] in old(fl.blocks) || fresh(fl.blocks[s])
    ensures Contents(fl) == old(Contents(fl))[id := ListOf(old(Contents(fl)), id) + [Pos(i, j)]]
  {
    hide Layer.Valid, Slice.Values, Slice.ExactEdges, FaultBlockLayer.ValidStore, Contents;
    var block := BlockFor(fl, id);
    ghost var before := Contents(fl);
    ListsAre(fl);
    label Found:
    AddCellTo(fl, block, i, j);
    forall other: int | other in before
      ensures fl.Lookup(other) != null &&
              fl.Lookup(other).content ==
                if fl.Lookup(other) == block then before[other] + [Pos(i, j)] else before[other]
    {
      assert fl.Lookup(other) == old@Found(fl.Lookup(other));
      assert old@Found(fl.Lookup(other).content) == before[other];
    }
    OneListGrows(fl, block, before, Pos(i, j));
  }

  /** The block with a given id; it is added if there is none. */
  method BlockFor(fl: FaultBlockLayer, id: int) returns (block: FaultBlock)
    requires fl.ValidStore() && id >= 0
    modifies fl`blockMap, fl`blocks, fl`used
    ensures fl.ValidStore() && fl.Lookup(id) == block && block in fl.blocks && block.blockId == id
    ensures fl.used == old(fl.used) + {id}
    ensures fl.blocks == old(fl.blocks) || (fresh(block) && fl.blocks == old(fl.blocks) + [block])
    ensures Contents(fl) == old(Contents(fl))[id := ListOf(old(Contents(fl)), id)] && block.content == Contents(fl)[id]
  {
    hide FaultBlock.Consistent, FaultBlockLayer.StoredAt;
    var added := fl.AddBlock(id);
    block := fl.GetBlock(id);
  }

  lemma ListsAre(fl: FaultBlockLayer)
    requires fl.ValidStore()
    ensures forall id: int :: fl.Lookup(id) != null <==> id in Contents(fl)
    ensures forall id: int :: id in Contents(fl) ==> Contents(fl)[id] == fl.Lookup(id).content
  {
  }

  /** When one more cell stands in the list of a block, all other lists are as before. */
  lemma OneListGrows(fl: FaultBlockLayer, block: FaultBlock, before: imap<int, seq<Pos>>, p: Pos)
    requires fl.ValidStore() && fl.Lookup(block.blockId) == block && block.blockId in before
    requires forall id: int :: fl.Lookup(id) != null <==> id in before
    requires forall id: int :: id in before ==>
             fl.Lookup(id).content == if fl.Lookup(id) == block then before[id] + [p] else before[id]
    ensures Contents(fl) == before[block.blockId := before[block.blockId] + [p]]
  {
    forall id: int | id in before && fl.Lookup(id) == block ensures id == block.blockId {
      assert fl.StoredAt(fl.blockMap[id]);
    }
  }

  /** The positive ids of the cells before `end`. */
  ghost function IdsBefore(values: map<Pos, int>, end: Pos): set<int> {
    set p | p in values && Before(p, end) && values[p] > 0 :: values[p]
  }

  /** The lists of a store once the ids of the cells before (i, j) have been taken over: the cells join in row order. */
  ghost predicate TakenOver(before: imap<int, seq<Pos>>, now: imap<int, seq<Pos>>, values: map<Pos, int>, nx: nat,
                            i: nat, j: nat) {
    forall id: int :: id > 0 ==>
      && (id in now <==> id in before || id in IdsBefore(values, Pos(i, j)))
      && ListOf(now, id) == ListOf(before, id) + CellsWith(values, id, nx, i, j)
  }

  lemma NothingTakenOver(before: imap<int, seq<Pos>>, values: map<Pos, int>, nx: nat)
    requires forall p :: p in values ==> p.i >= 0 && p.j >= 0
    ensures IdsBefore(values, Pos(0, 0)) == {} && TakenOver(before, before, values, nx, 0, 0)
  {
    forall id: int ensures ListOf(before, id) + [] == ListOf(before, id) {}
  }

  lemma OneMoreCell(values: map<Pos, int>, id: int, nx: nat, i: nat, j: nat)
    requires Pos(i, j) in values
    ensures CellsWith(values, id, nx, i + 1, j) ==
            if values[Pos(i, j)] == id
              then CellsWith(values, id, nx, i, j) + [Pos(i, j)] else CellsWith(values, id, nx, i, j)
  {
    assert CellsWith(values, id, nx, i, j) + [] == CellsWith(values, id, nx, i, j);
  }

  lemma TakenOverStep(before: imap<int, seq<Pos>>, now: imap<int, seq<Pos>>, values: map<Pos, int>, nx: nat, ny: nat,
                      i: nat, j: nat)
    requires values.Keys == Box(nx, ny) && i < nx && j < ny && TakenOver(before, now, values, nx, i, j)
    ensures
      var p := Pos(i, j);
      && p in values
      && IdsBefore(values, Pos(i + 1, j)) == IdsBefore(values, p) + (if values[p] > 0 then {values[p]} else {})
      && var next := if values[p] > 0 then now[values[p] := ListOf(now, values[p]) + [p]] else now;
         TakenOver(before, next, values, nx, i + 1, j)
  {
    var p := Pos(i, j);
    BeforeNext(i, j);
    hide Before;
    assert IdsBefore(values, Pos(i + 1, j)) == IdsBefore(values, p) + (if values[p] > 0 then {values[p]} else {});
    hide IdsBefore, CellsWith;
    var next := if values[p] > 0 then now[values[p] := ListOf(now, values[p]) + [p]] else now;
    forall id: int | id > 0
      ensures id in next <==> id in before || id in IdsBefore(values, Pos(i + 1, j))
      ensures ListOf(next, id) == ListOf(before, id) + CellsWith(values, id, nx, i + 1, j)
    {
      OneMoreCell(values, id, nx, i, j);
    }
  }

  lemma TakenOverNextRow(before: imap<int, seq<Pos>>, now: imap<int, seq<Pos>>, values: map<Pos, int>, nx: nat, ny: nat,
                         j: nat)
    requires values.Keys == Box(nx, ny) && TakenOver(before, now, values, nx, nx, j)
    ensures IdsBefore(values, Pos(nx, j)) == IdsBefore(values, Pos(0, j + 1)) &&
            TakenOver(before, now, values, nx, 0, j + 1)
  {
    BeforeNextRow(nx, ny, j);
    hide Before;
  }

  /**
   * In a layer without blocks, the list of each block then holds exactly the cells with its id, each once, in row
   * order.
   */
  lemma LoadedLists(now: imap<int, seq<Pos>>, values: map<Pos, int>, nx: nat, ny: nat, id: int)
    requires values.Keys == Box(nx, ny) && id > 0 && TakenOver(imap[], now, values, nx, 0, ny)
    ensures id in now <==> exists p :: p in values && values[p] == id
    ensures id in now ==> forall p :: p in now[id] <==> p in values && values[p] == id
    ensures id in now ==> forall a, b :: 0 <= a < b < |now[id]| ==> Before(now[id][a], now[id][b])
  {
    CellsWithMeaning(values, id, nx, ny, 0, ny);
    assert ListOf(now, id) == [] + CellsWith(values, id, nx, 0, ny) == CellsWith(values, id, nx, 0, ny);
    assert forall p :: p in values ==> Before(p, Pos(0, ny));
  }

  /** Takes over the id of one cell, if it is positive. */
  method LoadNext(fl: FaultBlockLayer, i: int, j: int, id: int, ghost values: map<Pos, int>,
                  ghost before: imap<int, seq<Pos>>)
    requires fl.Valid() && 0 <= i < fl.nx && 0 <= j < fl.ny
    requires values.Keys == Box(fl.nx, fl.ny) && values[Pos(i, j)] == id &&
             TakenOver(before, Contents(fl), values, fl.nx, i, j)
    modifies fl`blockMap, fl`blocks, fl`used, fl.blocks, fl.layer, fl.layer.cells
    ensures fl.Valid() && TakenOver(before, Contents(fl), values, fl.nx, i + 1, j)
    ensures fl.used == old(fl.used) + (if id > 0 then {id} else {})
    ensures IdsBefore(values, Pos(i + 1, j)) == IdsBefore(values, Pos(i, j)) + (if id > 0 then {id} else {})
    ensures fl.layer.slice.Values() ==
            if id > 0 then old(fl.layer.slice).Values()[Pos(i, j) := id] else old(fl.layer.slice).Values()
    ensures old(fl.layer.slice).ExactEdges() && old(fl.layer.slice).Values()[Pos(i, j)] == 0 ==>
            fl.layer.slice.ExactEdges()
    ensures forall s :: 0 <= s < |fl.blocks| ==> fl.blocks[s] in old(fl.blocks) || fresh(fl.blocks[s])
  {
    hide Layer.Valid, Slice.Values, Slice.ExactEdges, FaultBlockLayer.ValidStore, Contents, TakenOver, IdsBefore;
    TakenOverStep(before, Contents(fl), values, fl.nx, fl.ny, i, j);
    if id > 0 {
      LoadCell(fl, i, j, id);
    }
  }

  /** Takes over the ids of one row. */
  method LoadRow(fl: FaultBlockLayer, data: seq<int>, j: int, ghost labels: map<Pos, int>,
                 ghost before: imap<int, seq<Pos>>)
    requires fl.Valid() && |data| == GridSize(fl.nx, fl.ny, fl.nz) && 0 <= j < fl.ny && labels.Keys == Box(fl.nx, fl.ny)
    requires TakenOver(before, Contents(fl), KwSlice(data, fl.nx, fl.ny, fl.nz, fl.k), fl.nx, 0, j)
    requires fl.layer.slice.Values() == Loaded(KwSlice(data, fl.nx, fl.ny, fl.nz, fl.k), labels, Pos(0, j))
    modifies fl`blockMap, fl`blocks, fl`used, fl.blocks, fl.layer, fl.layer.cells
    ensures fl.Valid() && TakenOver(before, Contents(fl), KwSlice(data, fl.nx, fl.ny, fl.nz, fl.k), fl.nx, 0, j + 1)
    ensures fl.layer.slice.Values() == Loaded(KwSlice(data, fl.nx, fl.ny, fl.nz, fl.k), labels, Pos(0, j + 1))
    ensures forall used: set<int> ::
            old(fl.used) == used + IdsBefore(KwSlice(data, fl.nx, fl.ny, fl.nz, fl.k), Pos(0, j)) ==>
              fl.used == used + IdsBefore(KwSlice(data, fl.nx, fl.ny, fl.nz, fl.k), Pos(0, j + 1))
    ensures old(fl.layer.slice).ExactEdges() && (forall p :: p in labels ==> labels[p] == 0) ==>
            fl.layer.slice.ExactEdges()
    ensures forall s :: 0 <= s < |fl.blocks| ==> fl.blocks[s] in old(fl.blocks) || fresh(fl.blocks[s])
  {
    hide Layer.Valid, Slice.Values, Slice.ExactEdges, FaultBlockLayer.ValidStore, Loaded, KwSlice, GridSize, Before;
    hide Contents, TakenOver, IdsBefore;
    ghost var values, nx, ny := KwSlice(data, fl.nx, fl.ny, fl.nz, fl.k), fl.nx, fl.ny;
    ghost var exact := fl.layer.slice.ExactEdges() && (forall p :: p in labels ==> labels[p] == 0);
    for i := 0 to fl.nx
      invariant fl.Valid() && TakenOver(before, Contents(fl), values, nx, i, j)
      invariant forall used: set<int> :: old(fl.used) == used + IdsBefore(values, Pos(0, j)) ==>
                fl.used == used + IdsBefore(values, Pos(i, j))
      invariant fl.layer.slice.Values() == Loaded(values, labels, Pos(i, j))
      invariant exact ==> fl.layer.slice.ExactEdges()
      invariant forall s :: 0 <= s < |fl.blocks| ==> fl.blocks[s] in old(fl.blocks) || fresh(fl.blocks[s])
    {
      var id := KwValue(data, fl.nx, fl.ny, fl.nz, fl.k, i, j);
      LoadedStep(values, labels, nx, ny, i, j);
      LoadNext(fl, i, j, id, values, before);
    }
    LoadedNextRow(values, labels, nx, ny, j);
    TakenOverNextRow(before, Contents(fl), values, nx, ny, j);
  }

  /**
   * Takes over the positive ids of one slice of a keyword: each marks its cell, which joins the list of the block with
   * that id, in row order; a block is made for an id that has none. A keyword of the wrong type or size is refused.
   */
  method LoadKw(fl: FaultBlockLayer, isInt: bool, data: seq<int>) returns (ok: bool)
    requires fl.Valid()
    modifies fl`blockMap, fl`blocks, fl`used, fl.blocks, fl.layer, fl.layer.cells
    ensures fl.Valid() && ok == (isInt && |data| == GridSize(fl.nx, fl.ny, fl.nz))
    ensures !ok ==>
            fl.blocks == old(fl.blocks) && fl.blockMap == old(fl.blockMap) && fl.layer.slice == old(fl.layer.slice)
    ensures !ok ==> fl.used == old(fl.used) && Contents(fl) == old(Contents(fl))
    ensures ok ==>
      var values := KwSlice(data, fl.nx, fl.ny, fl.nz, fl.k);
      && fl.layer.slice.Values() == Loaded(values, old(fl.layer.slice).Values(), Pos(0, fl.ny))
      && TakenOver(old(Contents(fl)), Contents(fl), values, fl.nx, 0, fl.ny)
      && fl.used == old(fl.used) + IdsBefore(values, Pos(0, fl.ny))
    ensures ok && old(fl.layer.slice).ExactEdges() &&
            (forall p :: p in old(fl.layer.slice).Values() ==> old(fl.layer.slice).Values()[p] == 0) ==>
              fl.layer.slice.ExactEdges()
  {
    hide Layer.Valid, Slice.Values, Slice.ExactEdges, FaultBlockLayer.ValidStore, Loaded, KwSlice, GridSize, Before;
    hide Contents, TakenOver, IdsBefore;
    if |data| != GridSize(fl.nx, fl.ny, fl.nz) { return false; }
    if !isInt { return false; }
    ok := true;
    ghost var values, labels, nx, ny := KwSlice(data, fl.nx, fl.ny, fl.nz, fl.k), fl.layer.slice.Values(), fl.nx, fl.ny;
    ghost var exact := fl.layer.slice.ExactEdges() && (forall p :: p in labels ==> labels[p] == 0);
    ghost var before := Contents(fl);
    LoadedStart(values, labels, nx, ny);
    NothingTakenOver(before, values, nx);
    for j := 0 to fl.ny
      invariant fl.Valid() && TakenOver(before, Contents(fl), values, nx, 0, j)
      invariant fl.used == old(fl.used) + IdsBefore(values, Pos(0, j))
      invariant fl.layer.slice.Values() == Loaded(values, labels, Pos(0, j))
      invariant exact ==> fl.layer.slice.ExactEdges()
      invariant forall s :: 0 <= s < |fl.blocks| ==> fl.blocks[s] in old(fl.blocks) || fresh(fl.blocks[s])
    {
      LoadRow(fl, data, j, labels, before);
    }
  }

  /** A keyword to which the labels of the cells before `end` have been written, and nothing else. */
  ghost predicate Exported(before: seq<int>, data: seq<int>, labels: map<Pos, int>, nx: nat, ny: nat, k: nat,
                           end: Pos) {
    && |data| == |before|
    && (forall p :: p in labels && Before(p, end) ==>
          0 <= GlobalIndex(nx, ny, k, p) < |data| && data[GlobalIndex(nx, ny, k, p)] == labels[p])
    && (forall g :: 0 <= g < |data| && !InSlice(nx, ny, k, g) ==> data[g] == before[g])
  }

  lemma ExportStarts(data: seq<int>, labels: map<Pos, int>, nx: nat, ny: nat, k: nat)
    requires labels.Keys == Box(nx, ny)
    ensures Exported(data, data, labels, nx, ny, k, Pos(0, 0))
  {
  }

  lemma ExportStep(before: seq<int>, data: seq<int>, labels: map<Pos, int>, nx: nat, ny: nat, nz: nat, k: nat, i: int,
                   j: int)
    requires labels.Keys == Box(nx, ny) && 0 <= i < nx && 0 <= j < ny && k < nz && |data| == GridSize(nx, ny, nz)
    requires Exported(before, data, labels, nx, ny, k, Pos(i, j))
    ensures
      var p := Pos(i, j);
      var g := GlobalIndex(nx, ny, k, p);
      && p in labels && 0 <= g < |data|
      && Exported(before, data[g := labels[p]], labels, nx, ny, k, Pos(i + 1, j))
  {
    hide GlobalIndex, GridSize, Before;
    BeforeNext(i, j);
    var p := Pos(i, j);
    GlobalIndexInRange(nx, ny, nz, k, p);
    var g := GlobalIndex(nx, ny, k, p);
    var next := data[g := labels[p]];
    assert InSlice(nx, ny, k, g);
    forall q | q in labels && Before(q, Pos(i + 1, j))
      ensures 0 <= GlobalIndex(nx, ny, k, q) < |next| && next[GlobalIndex(nx, ny, k, q)] == labels[q]
    {
      if GlobalIndex(nx, ny, k, q) == g { GlobalIndexInjective(nx, ny, k, q, k, p); }
    }
  }

  lemma ExportNextRow(before: seq<int>, data: seq<int>, labels: map<Pos, int>, nx: nat, ny: nat, k: nat, j: int)
    requires labels.Keys == Box(nx, ny) && Exported(before, data, labels, nx, ny, k, Pos(nx, j))
    ensures Exported(before, data, labels, nx, ny, k, Pos(0, j + 1))
  {
    hide GlobalIndex, InSlice, Before;
    BeforeNextRow(nx, ny, j);
  }

  lemma ExportEnds(before: seq<int>, data: seq<int>, labels: map<Pos, int>, nx: nat, ny: nat, nz: nat, k: nat)
    requires labels.Keys == Box(nx, ny) && k < nz && |data| == GridSize(nx, ny, nz)
    requires Exported(before, data, labels, nx, ny, k, Pos(0, ny))
    ensures KwSlice(data, nx, ny, nz, k) == labels
    ensures forall g :: 0 <= g < |data| && !InSlice(nx, ny, k, g) ==> data[g] == before[g]
  {
    hide GlobalIndex, InSlice, GridSize;
  }

  /** Writes the label of every cell of the slice to a keyword, and nothing else. */
  method Export(fl: FaultBlockLayer, isInt: bool, data: array<int>) returns (ok: bool)
    requires fl.Valid()
    modifies data
    ensures ok == (isInt && data.Length == GridSize(fl.nx, fl.ny, fl.nz))
    ensures !ok ==> data[..] == old(data[..])
    ensures ok ==> KwSlice(data[..], fl.nx, fl.ny, fl.nz, fl.k) == fl.layer.slice.Values()
    ensures ok ==> forall g :: 0 <= g < data.Length && !InSlice(fl.nx, fl.ny, fl.k, g) ==>
            data[..][g] == old(data[..])[g]
  {
    if !(isInt && data.Length == GridSize(fl.nx, fl.ny, fl.nz)) { return false; }
    ok := true;
    hide Layer.Valid, Slice.Values, FaultBlockLayer.ValidStore, GlobalIndex, GridSize, Exported, InSlice, KwSlice;
    ghost var labels, before := fl.layer.slice.Values(), data[..];
    ExportStarts(before, labels, fl.nx, fl.ny, fl.k);
    for j := 0 to fl.ny
      invariant Exported(before, data[..], labels, fl.nx, fl.ny, fl.k, Pos(0, j))
    {
      for i := 0 to fl.nx
        invariant Exported(before, data[..], labels, fl.nx, fl.ny, fl.k, Pos(i, j))
      {
        ExportStep(before, data[..], labels, fl.nx, fl.ny, fl.nz, fl.k, i, j);
        var g := GlobalIndex(fl.nx, fl.ny, fl.k, Pos(i, j));
        var v := fl.layer.CellValue(i, j);
        ghost var was := data[..];
        data[g] := v;
        assert data[..] == was[g := v];
      }
      ExportNextRow(before, data[..], labels, fl.nx, fl.ny, fl.k, j);
    }
    ExportEnds(before, data[..], labels, fl.nx, fl.ny, fl.nz, fl.k);
  }

  /** Copies the cells of a block, which may belong to any layer, into a new block. */
  method InsertBlockContent(fl: FaultBlockLayer, source: FaultBlock) returns (block: FaultBlock)
    requires fl.Valid() && source.Consistent() && forall p :: p in source.content ==>
             0 <= p.i < fl.nx && 0 <= p.j < fl.ny
    modifies fl`blockMap, fl`blocks, fl`used, fl.layer, fl.layer.cells
    ensures fl.Valid() && fresh(block) && fl.blocks == old(fl.blocks) + [block]
    ensures block.content == source.content && block.blockId !in old(fl.used) &&
            fl.used == old(fl.used) + {block.blockId}
    ensures fl.layer.slice.Values() == Painted(old(fl.layer.slice).Values(), Elements(source.content), block.blockId)
  {
    block := NewBlock(fl, source.iList, source.jList, source.content);
  }

  /**
   * What the trace round a block gives, when the sides of the true walk are cached: this walk, and it is a whole loop
   * if no cell of the block comes before the one where the trace starts.
   */
  ghost predicate BlockTraced(s: Slice, id: int, p: Pos, walk: seq<Side>, corners: seq<Pos>, cells: seq<int>)
    requires s.Wf()
  {
    && Traced(s.nx, s.Values(), id, walk, corners, cells)
    && (id == 0 || (forall q :: InBlock(s.Values(), id, q) ==> !Before(q, p)) ==>
          Successor(s.Values(), id, walk[|walk|-1]) == walk[0])
  }

  lemma TracedFromFirst(s: Slice, id: int, p: Pos, ok: bool, corners: seq<Pos>, cells: seq<int>, walk: seq<Side>)
    requires s.Wf() && s.LooseEdges() && InBox(s.nx, s.ny, p) && s.grid[p].value == id
    requires CachedAround(s, p, id) && TraceResult(s, p, id, ok, corners, cells, walk)
    ensures ok && BlockTraced(s, id, p, walk, corners, cells)
  {
    hide Slice.LooseEdges, Slice.Values, Component, Region, ClosedWalk, Pinched, Successor, Boundary, StartOf;
    hide StartSide;
    CachedAroundTraces(s, p, id);
    StartSideIsBoundary(s, p, id);
    var values := s.Values();
    WholeLoop(values, id, walk);
    if id != 0 && forall q :: InBlock(values, id, q) ==> !Before(q, p) {
      LowestRowIsNotPinched(values, id, walk[0]);
    }
  }

  lemma TracedOnLayer(layer: Layer, id: int, p: Pos, ok: bool, corners: seq<Pos>, cells: seq<int>, walk: seq<Side>)
    requires layer.Valid() && InBox(layer.nx, layer.ny, p) && layer.slice.Values()[p] == id
    requires TraceResult(layer.slice, p, id, ok, corners, cells, walk)
    ensures CachedAround(layer.slice, p, id) ==> ok && BlockTraced(layer.slice, id, p, walk, corners, cells)
  {
    hide TraceResult, CachedAround, BlockTraced;
    if CachedAround(layer.slice, p, id) { TracedFromFirst(layer.slice, id, p, ok, corners, cells, walk); }
  }

  /**
   * Traces the boundary of the block around the first cell of a block's list, provided that the recursion ends; a
   * detached block refuses, and a cell that has another value by now gives nothing.
   */
  method TraceEdge(block: FaultBlock) returns (ok: bool, corners: seq<Pos>, cells: seq<int>, ghost walk: seq<Side>)
    requires block.Consistent()
    requires block.parent != null ==> block.parent.Valid()
    requires block.parent != null ==>
               forall p :: p in block.content ==> 0 <= p.i < block.parent.nx && 0 <= p.j < block.parent.ny
    requires block.parent != null && block.content != [] &&
             block.parent.layer.slice.Values()[block.content[0]] == block.blockId ==>
               TraceEnds(block.parent.layer.slice, block.content[0], block.blockId)
    ensures block.parent == null ==> !ok
    ensures block.parent != null && block.content == [] ==> ok && corners == [] && cells == []
    ensures block.parent != null && block.content != [] ==>
      var s, p := block.parent.layer.slice, block.content[0];
      if s.Values()[p] != block.blockId then ok && corners == [] && cells == []
      else
        && TraceResult(s, p, block.blockId, ok, corners, cells, walk)
        && (CachedAround(s, p, block.blockId) ==> ok && BlockTraced(s, block.blockId, p, walk, corners, cells))
  {
    hide Layer.Valid, Slice.Values, FaultBlockLayer.ValidStore, TraceResult, CachedAround, BlockTraced, TraceEnds;
    corners, cells, walk := [], [], [];
    if block.parent == null { return false, corners, cells, walk; }
    if |block.iList| == 0 { return true, corners, cells, walk; }
    assert block.content[0] in block.content && Pos(block.iList[0], block.jList[0]) == block.content[0];
    ghost var p := block.content[0];
    var found;
    found, ok, corners, cells, walk :=
      TraceBlockEdge(block.parent.layer, block.iList[0], block.jList[0], block.blockId);
    if found { TracedOnLayer(block.parent.layer, block.blockId, p, ok, corners, cells, walk); }
  }

  /**
   * With exact edges, as scanning or loading into an empty layer leaves them, the trace always ends with a closed
   * walk along the block of the cell, from its lower side if that is on the boundary.
   */
  lemma ExactEdgesTrace(s: Slice, id: int, p: Pos)
    requires s.Wf() && s.ExactEdges() && InBox(s.nx, s.ny, p) && s.grid[p].value == id
    ensures s.LooseEdges() && CachedAround(s, p, id) && TraceEnds(s, p, id)
    ensures StartSide(s, p, id) != None && StartSide(s, p, id).value.cell in BlockOf(s.Values(), p)
    ensures Boundary(s.Values(), id, Side(p, BottomEdge)) ==> StartSide(s, p, id) == Some(Side(p, BottomEdge))
  {
    hide Slice.ExactEdges, Slice.LooseEdges, StartSide, CachedAround, TraceEnds;
    ExactIsCachedAround(s, p, id);
    CachedAroundTraces(s, p, id);
    ExactStart(s, p, id);
  }
}
