/** The fault blocks of one slice: a store of blocks found by id, and the layer that holds the id of each cell. */
module FaultBlocks {
  import opened SliceIndex
  import opened Cells
  import opened Layers
  import opened BlockTrace

  ghost function GlobalIndices(nx: nat, ny: nat, k: nat, cells: seq<Pos>): seq<int> {
    seq(|cells|, c requires 0 <= c < |cells| => GlobalIndex(nx, ny, k, cells[c]))
  }

  /** A block: the cells that were added to it, in order. It may outlive its removal from the store, detached. */
  class FaultBlock {
    const blockId: int
    const nx: nat
    const ny: nat
    const k: nat
    var parent: FaultBlockLayer?
    var iList: seq<int>
    var jList: seq<int>
    var globalIndexList: seq<int>
    ghost var content: seq<Pos>

    ghost predicate Consistent()
      reads this
    {
      iList == Is(content) && jList == Js(content) && globalIndexList == GlobalIndices(nx, ny, k, content)
    }

    constructor (parent: FaultBlockLayer, blockId: int)
      ensures this.parent == parent && this.blockId == blockId && content == [] && Consistent()
      ensures nx == parent.nx && ny == parent.ny && k == parent.k
    {
      this.parent, this.blockId := parent, blockId;
      nx, ny, k := parent.nx, parent.ny, parent.k;
      iList, jList, globalIndexList, content := [], [], [], [];
    }

    method Detach()
      modifies this`parent
      ensures parent == null
    {
      parent := null;
    }

    /** Adds a cell to the block and marks it in the layer; a detached block refuses. */
    method AddCell(i: int, j: int) returns (ok: bool)
      requires Consistent()
      requires parent != null ==> parent.layer.Valid() && 0 <= i < parent.layer.nx && 0 <= j < parent.layer.ny
      modifies this`iList, this`jList, this`globalIndexList, this`content
      modifies if parent == null then {} else {parent.layer, parent.layer.cells}
      ensures Consistent() && ok == (parent != null)
      ensures content == if ok then old(content) + [Pos(i, j)] else old(content)
      ensures ok ==> parent.layer.Valid() && parent.layer.slice.Barriers() == old(parent.layer.slice).Barriers()
      ensures ok ==> old(parent.layer.slice).CellSet(parent.layer.slice, Pos(i, j), blockId)
      ensures ok ==> parent.layer.slice.Values() == old(parent.layer.slice).Values()[Pos(i, j) := blockId]
    {
      hide Layer.Valid;
      if parent == null { return false; }
      iList, jList := iList + [i], jList + [j];
      globalIndexList := globalIndexList + [GlobalIndex(nx, ny, k, Pos(i, j))];
      content := content + [Pos(i, j)];
      parent.layer.SetCellValue(i, j, blockId);
      return true;
    }
  }

  class FaultBlockLayer {
    const nx: nat
    const ny: nat
    const nz: nat
    const k: nat
    const layer: Layer
    var blockMap: seq<int>
    var blocks: seq<FaultBlock>
    /** Every id that a block of this layer ever had. */
    ghost var used: set<int>

    ghost predicate Valid()
      reads this, layer, layer.cells, blocks
    {
      layer.Valid() && layer.nx == nx && layer.ny == ny && k < nz && ValidStore()
    }

    /** The id map and the block list are mutually inverse partial maps, and every id ever used is within the map. */
    ghost predicate ValidStore()
      reads this, blocks
    {
      && (forall id :: 0 <= id < |blockMap| && blockMap[id] >= 0 ==>
            blockMap[id] < |blocks| && blocks[blockMap[id]].blockId == id)
      && (forall s :: 0 <= s < |blocks| ==> StoredAt(s))
      && (forall id :: id in used ==> 0 <= id < |blockMap|)
    }

    ghost predicate StoredAt(s: int)
      requires 0 <= s < |blocks|
      reads this, blocks
    {
      var b := blocks[s];
      && 0 <= b.blockId < |blockMap| && blockMap[b.blockId] == s && b.blockId in used
      && b.parent == this && b.nx == nx && b.ny == ny && b.k == k && b.Consistent()
    }

    /** The block with a given id. */
    ghost function Lookup(id: int): FaultBlock?
      requires ValidStore()
      reads this, blocks
    {
      if 0 <= id < |blockMap| && blockMap[id] >= 0 then blocks[blockMap[id]] else null
    }

    constructor (nx: nat, ny: nat, nz: nat, k: nat)
      requires k < nz
      ensures Valid() && fresh(layer) && fresh(layer.cells)
      ensures this.nx == nx && this.ny == ny && this.nz == nz && this.k == k
      ensures blocks == [] && blockMap == [] && used == {}
      ensures layer.slice == BlankSlice(nx, ny)
    {
      this.nx, this.ny, this.nz, this.k := nx, ny, nz, k;
      layer := new Layer(nx, ny);
      blockMap, blocks, used := [], [], {};
    }

    /** The place of a block in the list, or -1. */
    method GetIndex(id: int) returns (index: int)
      requires ValidStore() && id >= 0
      ensures index == if id < |blockMap| then blockMap[id] else -1
      ensures index >= 0 <==> Lookup(id) != null
      ensures index >= 0 ==> index < |blocks| && blocks[index] == Lookup(id)
    {
      if id >= |blockMap| { return -1; }
      return blockMap[id];
    }

    /** Adds an empty block, unless there is a block with that id. */
    method AddBlock(id: int) returns (block: FaultBlock?)
      requires ValidStore() && id >= 0
      modifies this`blockMap, this`blocks, this`used
      ensures ValidStore()
      ensures old(Lookup(id)) != null ==> block == null && blocks == old(blocks) && blockMap == old(blockMap)
      ensures old(Lookup(id)) == null ==>
        && block != null && fresh(block) && block.blockId == id && block.parent == this && block.content == []
        && Lookup(id) == block && blocks == old(blocks) + [block]
        && |blockMap| == if id < |old(blockMap)| then |old(blockMap)| else id + 1
      ensures used == old(used) + {id}
      ensures forall other: int :: other != id ==> Lookup(other) == old(Lookup(other))
    {
      var index := GetIndex(id);
      if index >= 0 {
        assert StoredAt(index);
        return null;
      }
      block := new FaultBlock(this, id);
      var storageIndex := |blocks|;
      if id >= |blockMap| {
        blockMap := blockMap + seq(id + 1 - |blockMap|, _ => -1);
      }
      blocks := blocks + [block];
      blockMap := blockMap[id := storageIndex];
      used := used + {id};
      forall s | 0 <= s < |blocks| ensures StoredAt(s) {
        if s < storageIndex { assert old(StoredAt(s)); }
      }
    }

    method GetBlock(id: int) returns (block: FaultBlock?)
      requires ValidStore() && id >= 0
      ensures block == Lookup(id)
      ensures block != null ==> block.blockId == id && block.parent == this && block in blocks
    {
      var index := GetIndex(id);
      if index < 0 { return null; }
      assert StoredAt(index);
      return blocks[index];
    }

    /** The block with a given id; it is added if there is none. */
    method SafeGetBlock(id: int) returns (block: FaultBlock)
      requires ValidStore() && id >= 0
      modifies this`blockMap, this`blocks, this`used
      ensures ValidStore() && Lookup(id) == block && block.blockId == id && block.parent == this
      ensures old(Lookup(id)) != null ==> block == old(Lookup(id)) && blocks == old(blocks)
      ensures old(Lookup(id)) == null ==> fresh(block) && blocks == old(blocks) + [block] && block.content == []
      ensures used == old(used) + {id}
      ensures forall other: int :: other != id ==> Lookup(other) == old(Lookup(other))
    {
      var index := GetIndex(id);
      if index < 0 {
        var added := AddBlock(id);
        return added;
      }
      assert StoredAt(index);
      assert id in used;
      return blocks[index];
    }

    /** The next free id: one that no block of this layer ever had. */
    method NextId() returns (id: int)
      requires ValidStore()
      ensures id >= 1 && id !in used && Lookup(id) == null
      ensures id == if |blockMap| == 0 then 1 else |blockMap|
    {
      if |blockMap| == 0 { return 1; }
      return |blockMap|;
    }

    /** Moves the places behind a removed one up by one. */
    method CloseGap(storageIndex: int)
      modifies this`blockMap
      ensures |blockMap| == |old(blockMap)|
      ensures forall id :: 0 <= id < |blockMap| ==>
                blockMap[id] == if old(blockMap)[id] > storageIndex then old(blockMap)[id] - 1 else old(blockMap)[id]
    {
      for x := 0 to |blockMap|
        invariant |blockMap| == |old(blockMap)|
        invariant forall id :: 0 <= id < x ==>
                    blockMap[id] ==
                      if old(blockMap)[id] > storageIndex then old(blockMap)[id] - 1 else old(blockMap)[id]
        invariant forall id :: x <= id < |blockMap| ==> blockMap[id] == old(blockMap)[id]
      {
        if blockMap[x] > storageIndex {
          blockMap := blockMap[x := blockMap[x] - 1];
        }
      }
    }

    /** Removes a block, if there is one with that id; the block is detached, and all others keep their ids. */
    method RemoveBlock(id: int)
      requires ValidStore() && id >= 0
      modifies this`blockMap, this`blocks, (if Lookup(id) == null then {} else {Lookup(id)})`parent
      ensures ValidStore() && Lookup(id) == null
      ensures forall other: int :: other != id ==> Lookup(other) == old(Lookup(other))
      ensures old(Lookup(id)) != null ==> old(Lookup(id)).parent == null
      ensures old(Lookup(id)) != null ==>
        var s := old(blockMap)[id];
        0 <= s < |old(blocks)| && blocks == old(blocks)[..s] + old(blocks)[s + 1..]
      ensures old(Lookup(id)) == null ==> blocks == old(blocks) && blockMap == old(blockMap)
      ensures |blockMap| == |old(blockMap)|
    {
      var storageIndex := GetIndex(id);
      if storageIndex >= 0 {
        assert StoredAt(storageIndex);
        blockMap := blockMap[id := -1];
        blocks[storageIndex].Detach();
        blocks := blocks[..storageIndex] + blocks[storageIndex + 1..];
        CloseGap(storageIndex);
        forall s | 0 <= s < |blocks| ensures StoredAt(s) {
          var t := if s < storageIndex then s else s + 1;
          assert blocks[s] == old(blocks)[t] && old(StoredAt(t)) && old(StoredAt(storageIndex));
        }
        forall other | 0 <= other < |blockMap| && blockMap[other] >= 0
          ensures blockMap[other] < |blocks| && blocks[blockMap[other]].blockId == other
        {
          assert old(StoredAt(storageIndex)) && other != id;
          assert old(blockMap)[other] != storageIndex;
        }
      }
    }
  }
}
