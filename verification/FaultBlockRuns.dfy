/** Any run of the operations on the block store of a layer: no id is ever given out twice. */
module FaultBlockRuns {
  import opened FaultBlocks
  import opened FaultBlockKeywords

  /** An operation on the store; each one concerns an id. */
  datatype Operation = Add(id: nat) | SafeGet(id: nat) | Delete(id: nat) | Insert(source: FaultBlock) | Next

  /** The operation gives a block its id. */
  predicate Uses(op: Operation) {
    op.Add? || op.SafeGet? || op.Insert?
  }

  /** The id of the operation comes from the store. */
  predicate GivesOut(op: Operation) {
    op.Next? || op.Insert?
  }

  /** The blocks to be copied fit the layer. */
  ghost predicate Fits(fl: FaultBlockLayer, op: Operation)
    reads if op.Insert? then {op.source} else {}
  {
    op.Insert? ==> op.source.Consistent() && forall p :: p in op.source.content ==> 0 <= p.i < fl.nx && 0 <= p.j < fl.ny
  }

  /** Carries out one operation and returns the id that it concerns. */
  method Perform(fl: FaultBlockLayer, op: Operation) returns (id: int)
    requires fl.Valid() && Fits(fl, op)
    modifies fl`blockMap, fl`blocks, fl`used, fl.layer, fl.layer.cells, fl.blocks`parent
    ensures fl.Valid() && fl.used == old(fl.used) + if Uses(op) then {id} else {}
    ensures GivesOut(op) ==> id !in old(fl.used)
    ensures forall s :: 0 <= s < |fl.blocks| ==> fl.blocks[s] in old(fl.blocks) || fresh(fl.blocks[s])
  {
    match op {
      case Add(i) =>
        id := i;
        var block := fl.AddBlock(id);
      case SafeGet(i) =>
        id := i;
        var block := fl.SafeGetBlock(id);
      case Delete(i) =>
        id := i;
        fl.RemoveBlock(id);
      case Insert(source) =>
        var block := InsertBlockContent(fl, source);
        id := block.blockId;
      case Next =>
        id := fl.NextId();
    }
  }

  /** Carries out any run of operations: an id that the store gives out was used by no earlier operation of the run. */
  method Run(fl: FaultBlockLayer, ops: seq<Operation>) returns (ids: seq<int>)
    requires fl.Valid() && forall m :: 0 <= m < |ops| ==> Fits(fl, ops[m])
    modifies fl`blockMap, fl`blocks, fl`used, fl.layer, fl.layer.cells, fl.blocks`parent
    ensures fl.Valid() && |ids| == |ops|
    ensures forall k, m :: 0 <= k < m < |ops| && Uses(ops[k]) && GivesOut(ops[m]) ==> ids[m] != ids[k]
    ensures forall m :: 0 <= m < |ops| && GivesOut(ops[m]) ==> ids[m] !in old(fl.used)
  {
    hide FaultBlockLayer.Valid, FaultBlockLayer.ValidStore;
    ids := [];
    for m := 0 to |ops|
      invariant fl.Valid() && |ids| == m && old(fl.used) <= fl.used
      invariant forall k :: 0 <= k < m && Uses(ops[k]) ==> ids[k] in fl.used
      invariant forall k, l :: 0 <= k < l < m && Uses(ops[k]) && GivesOut(ops[l]) ==> ids[l] != ids[k]
      invariant forall k :: 0 <= k < m && GivesOut(ops[k]) ==> ids[k] !in old(fl.used)
      invariant forall s :: 0 <= s < |fl.blocks| ==> fl.blocks[s] in old(fl.blocks) || fresh(fl.blocks[s])
      invariant forall k :: 0 <= k < |ops| ==> Fits(fl, ops[k])
    {
      var id := Perform(fl, ops[m]);
      ids := ids + [id];
    }
  }
}
