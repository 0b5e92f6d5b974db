/** Unpacking a unified restart file undoes packing. */
module Unpacking {
  import opened Prelude
  import opened Bytes
  import opened FortranIO
  import opened Keywords
  import opened FileKeywords
  import opened FileViews
  import opened FileScan
  import opened Packing

  ghost function KwNames(kws: seq<Keyword>): (names: seq<Name>)
    ensures |names| == |kws| && forall i :: 0 <= i < |kws| ==> names[i] == Strip(kws[i].header8)
  {
    seq(|kws|, i requires 0 <= i < |kws| => Strip(kws[i].header8))
  }

  /** Where the blocks of a file start that are headed by keywords of a name, and where block `b` stops. */
  ghost function BlockStarts(kws: seq<Keyword>, name: Name): seq<nat> {
    Positions(KwNames(kws), name, |kws|)
  }

  ghost function BlockStop(kws: seq<Keyword>, name: Name, b: nat): (stop: nat)
    requires b < |BlockStarts(kws, name)|
    ensures BlockStarts(kws, name)[b] < stop <= |kws|
  {
    PositionsAt(KwNames(kws), name, |kws|, b);
    NextNamed(KwNames(kws), name, BlockStarts(kws, name)[b] + 1)
  }

  /** The blocks of one name follow each other without a gap, up to the end of the list. */
  lemma BlocksPartition(kws: seq<Keyword>, name: Name, b: nat)
    requires b < |BlockStarts(kws, name)|
    ensures BlockStop(kws, name, b) ==
            if b + 1 < |BlockStarts(kws, name)| then BlockStarts(kws, name)[b + 1] else |kws|
  {
    BlockEndsAtNext(KwNames(kws), name, b);
  }

  /** A file that unpacking writes. */
  datatype Unpacked = Unpacked(step: int, bytes: seq<Byte>)

  /** The report step and the keywords of block `b`. */
  ghost function BlockOf(kws: seq<Keyword>, b: nat): (r: Option<Unpacked>)
    requires AllValid(kws) && b < |BlockStarts(kws, SEQNUM)|
  {
    PositionsAt(KwNames(kws), SEQNUM, |kws|, b);
    match FirstInt(kws[BlockStarts(kws, SEQNUM)[b]])
    case None => None
    case Some(step) => Some(Unpacked(step, FileBytes(kws[BlockStarts(kws, SEQNUM)[b] + 1..BlockStop(kws, SEQNUM, b)])))
  }

  /** The listed keywords stand in the file, they have been indexed, and nothing wrong has been loaded. */
  ghost predicate Ready(file: File, bytes: seq<Byte>, kws: seq<Keyword>)
    reads file.io`bytes, file.globalView, file.globalView.kwList
  {
    && file.io.bytes == bytes && file.io.readSize == |bytes|
    && file.globalView.IsIndexed() && file.globalView.Consistent(bytes)
    && |file.globalView.kwList| == |kws| && AllStand(bytes, file.globalView.kwList, kws)
  }

  lemma SameNames(bytes: seq<Byte>, list: seq<FileKW>, kws: seq<Keyword>)
    requires |list| == |kws| && AllStand(bytes, list, kws)
    ensures Names(list) == KwNames(kws)
  {
    hide Strip, At, KeywordBytes, Keywords.Valid;
    forall i | 0 <= i < |list| ensures Names(list)[i] == KwNames(kws)[i] {
      assert Stands(bytes, list[i].entry, kws[i]);
    }
  }

  /** The number of a report step does not change when it is read from a file. */
  lemma FirstIntOfLoaded(kw: Keyword)
    requires Keywords.Valid(kw)
    ensures FirstInt(NormalKeyword(kw)) == FirstInt(kw)
  {
    hide ValidHeader;
  }

  lemma PartStands(bytes: seq<Byte>, list: seq<FileKW>, kws: seq<Keyword>, start: nat, stop: nat)
    requires |list| == |kws| && AllStand(bytes, list, kws) && start < stop <= |kws|
    ensures AllStand(bytes, list[start..stop], kws[start..stop]) && Stands(bytes, list[start].entry, kws[start])
    ensures AllValid(kws[start..stop]) && AllValid(kws[start..stop][1..]) &&
            kws[start..stop][1..] == kws[start + 1..stop]
  {
    hide At, Matches, KeywordBytes, Keywords.Valid;
    forall i | start <= i < stop ensures Stands(bytes, list[i].entry, kws[i]) {}
  }

  /** The first keyword of a block is found under its name. */
  lemma {:induction false} FirstPosition(names: seq<Name>, name: Name, m: nat)
    requires 0 < m <= |names| && names[0] == name
    ensures Positions(names, name, m) != [] && Positions(names, name, m)[0] == 0
  {
    if m > 1 { FirstPosition(names, name, m - 1); }
  }

  /** Writes the keywords of one block to a file of their own. */
  method UnpackBlock(file: File, b: nat, ghost kws: seq<Keyword>) returns (ok: bool, unpacked: Unpacked)
    requires Ready(file, file.io.bytes, kws) && AllValid(kws) && b < |BlockStarts(kws, SEQNUM)|
    modifies file.globalView.kwList, file.io`pos
    ensures Ready(file, old(file.io.bytes), kws)
    ensures ok == BlockOf(kws, b).Some?
    ensures ok ==> BlockOf(kws, b) == Some(unpacked)
  {
    hide FileBytes, AllStand, LoadedEntry, Positions, NextNamed, FirstInt, AllValid, KwNames, Names, KeywordBytes;
    hide NormalKeyword;
    hide IndexOf, ListsNames, Stands, Overwrite, Keywords.Valid;
    ok, unpacked := false, Unpacked(0, []);
    ghost var bytes, start, stop := file.io.bytes, BlockStarts(kws, SEQNUM)[b], BlockStop(kws, SEQNUM, b);
    SameNames(bytes, file.globalView.kwList, kws);
    var found := file.globalView.Blockview(Some(SEQNUM), Some(SEQNUM), b);
    var view := found.value;
    PositionsAt(KwNames(kws), SEQNUM, |kws|, b);
    PartStands(bytes, file.globalView.kwList, kws, start, stop);
    BlockHead(view, kws, start);
    var seqnum := view.kwList[view.kwIndex[SEQNUM][0]];
    assert seqnum == file.globalView.kwList[start];
    LoadsStanding(bytes, seqnum.entry, kws[start]);
    FirstIntOfLoaded(kws[start]);
    var read := seqnum.GetKw(file.io);
    var step := FirstInt(seqnum.kw.value);
    if step.None? { return; }
    var target := new FortIO([], true);
    var written := view.Write(file.io, target, 1, kws[start..stop]);
    WriteToEmpty(FileBytes(kws[start + 1..stop]));
    ok, unpacked := true, Unpacked(step.value, target.bytes);
  }

  lemma WriteToEmpty(chunk: seq<Byte>)
    ensures Overwrite([], 0, chunk) == chunk
  {
  }

  lemma BlockHead(view: FileView, kws: seq<Keyword>, start: nat)
    requires view.IsIndexed() && view.kwList != [] && start < |kws|
    requires view.kwList[0].entry.name == SEQNUM
    ensures SEQNUM in view.kwIndex && view.kwIndex[SEQNUM] != [] && view.kwIndex[SEQNUM][0] == 0
  {
    FirstPosition(Names(view.kwList), SEQNUM, |view.kwList|);
  }

  /** Splits a file at its report steps. It stops at a step without a number. */
  method Unpack(bytes: seq<Byte>, ghost kws: seq<Keyword>) returns (ok: bool, files: seq<Unpacked>)
    requires Shows(bytes, kws)
    ensures ok <==> forall b :: 0 <= b < |BlockStarts(kws, SEQNUM)| ==> BlockOf(kws, b).Some?
    ensures ok ==> |files| == |BlockStarts(kws, SEQNUM)|
    ensures ok ==> forall b :: 0 <= b < |files| ==> BlockOf(kws, b) == Some(files[b])
  {
    hide FileBytes, Scanned, Entries, AllStand, LoadedEntry, Positions, NextNamed, BlockStop, FirstInt, AllValid;
    hide KwNames, Names;
    hide BlockOf, Strip, KeywordBytes;
    ok, files := false, [];
    var file := new File(bytes, false);
    var scanned := file.Scan();
    EntriesStand(bytes, kws, file.globalView.kwList);
    assert Ready(file, bytes, kws);
    SameNames(bytes, file.globalView.kwList, kws);
    var size := file.globalView.NumNamedKw(SEQNUM);
    ghost var list := file.globalView.kwList;
    for b := 0 to size
      invariant size == |BlockStarts(kws, SEQNUM)| && |files| == b
      invariant Ready(file, bytes, kws) && file.globalView.kwList == list
      invariant forall c :: 0 <= c < b ==> BlockOf(kws, c) == Some(files[c])
    {
      var read, unpacked := UnpackBlock(file, b, kws);
      if !read { return; }
      files := files + [unpacked];
    }
    ok := true;
  }

  /** No keyword of the report steps is called SEQNUM. */
  ghost predicate NoSeqnumInside(blocks: seq<Block>) {
    forall b :: 0 <= b < |blocks| ==> NoSeqnum(blocks[b].kws)
  }

  ghost predicate NoSeqnum(kws: seq<Keyword>) {
    forall k :: 0 <= k < |kws| ==> Strip(kws[k].header8) != SEQNUM
  }

  lemma {:induction false} PositionsInFront(a: seq<Name>, b: seq<Name>, name: Name, m: nat)
    requires m <= |a| && m <= |b| && forall i :: 0 <= i < m ==> a[i] == b[i]
    ensures Positions(a, name, m) == Positions(b, name, m)
  {
    if m > 0 { PositionsInFront(a, b, name, m - 1); }
  }

  lemma {:induction false} NoPositions(names: seq<Name>, name: Name, m: nat, n: nat)
    requires m <= n <= |names| && forall i :: m <= i < n ==> names[i] != name
    ensures Positions(names, name, n) == Positions(names, name, m)
    decreases n
  {
    if m < n { NoPositions(names, name, m, n - 1); }
  }

  /** A further report step starts behind all keywords before it. */
  lemma OneMoreBlock(kws: seq<Keyword>, step: int, more: seq<Keyword>)
    requires FitsInt32(step) && NoSeqnum(more)
    ensures BlockStarts(kws + [Seqnum(step)] + more, SEQNUM) == BlockStarts(kws, SEQNUM) + [|kws|]
  {
    hide Strip, Seqnum;
    SeqnumIsValid(step);
    var all := kws + [Seqnum(step)] + more;
    var names := KwNames(all);
    PositionsInFront(KwNames(kws), names, SEQNUM, |kws|);
    assert names[|kws|] == SEQNUM;
    forall i | |kws| + 1 <= i < |all| ensures names[i] != SEQNUM {
      assert all[i] == more[i - |kws| - 1];
    }
    NoPositions(names, SEQNUM, |kws| + 1, |all|);
  }

  /** The blocks before it stay as they are. */
  lemma EarlierBlock(kws: seq<Keyword>, step: int, more: seq<Keyword>, b: nat)
    requires FitsInt32(step) && NoSeqnum(more) && b < |BlockStarts(kws, SEQNUM)|
    requires AllValid(kws) && AllValid(kws + [Seqnum(step)] + more)
    ensures b < |BlockStarts(kws + [Seqnum(step)] + more, SEQNUM)|
    ensures BlockOf(kws + [Seqnum(step)] + more, b) == BlockOf(kws, b)
  {
    hide FileBytes, FirstInt, Keywords.Valid, KwNames, Positions, NextNamed, Seqnum, BlockStarts, BlockStop, Strip;
    hide NoSeqnum;
    var all := kws + [Seqnum(step)] + more;
    OneMoreBlock(kws, step, more);
    BlocksPartition(all, SEQNUM, b);
    BlocksPartition(kws, SEQNUM, b);
    var from, stop := BlockStarts(kws, SEQNUM)[b], BlockStop(kws, SEQNUM, b);
    assert all[from] == kws[from];
    assert all[from + 1..stop] == kws[from + 1..stop];
  }

  lemma LastBlock(kws: seq<Keyword>, step: int, more: seq<Keyword>)
    requires FitsInt32(step) && NoSeqnum(more)
    requires AllValid(more) && AllValid(kws + [Seqnum(step)] + more)
    ensures |BlockStarts(kws + [Seqnum(step)] + more, SEQNUM)| == |BlockStarts(kws, SEQNUM)| + 1
    ensures BlockOf(kws + [Seqnum(step)] + more, |BlockStarts(kws, SEQNUM)|) == Some(Unpacked(step, FileBytes(more)))
  {
    hide FileBytes, FirstInt, Keywords.Valid, KwNames, Positions, NextNamed, Seqnum, BlockStarts, BlockStop, Strip;
    hide NoSeqnum;
    var all := kws + [Seqnum(step)] + more;
    OneMoreBlock(kws, step, more);
    BlocksPartition(all, SEQNUM, |BlockStarts(kws, SEQNUM)|);
    StepOfSeqnum(step);
    assert all[|kws|] == Seqnum(step);
    assert all[|kws| + 1..|all|] == more;
  }

  /** Unpacking a file gives these report steps, each with its number and the bytes of its keywords. */
  ghost predicate UnpacksTo(kws: seq<Keyword>, blocks: seq<Block>) {
    && AllValid(kws) && ValidBlocks(blocks) && |BlockStarts(kws, SEQNUM)| == |blocks|
    && forall b :: 0 <= b < |blocks| ==> BlockOf(kws, b) == Some(Unpacked(blocks[b].step, FileBytes(blocks[b].kws)))
  }

  lemma UnpacksOneMore(kws: seq<Keyword>, blocks: seq<Block>, step: int, more: seq<Keyword>)
    requires UnpacksTo(kws, blocks) && FitsInt32(step) && AllValid(more) && NoSeqnum(more)
    requires AllValid(kws + [Seqnum(step)] + more)
    ensures UnpacksTo(kws + [Seqnum(step)] + more, blocks + [Block(step, more)])
  {
    hide FileBytes, AllValid, BlockStarts, BlockOf, Seqnum, NoSeqnum;
    LastBlock(kws, step, more);
    forall b | 0 <= b < |blocks| ensures BlockOf(kws + [Seqnum(step)] + more, b) == BlockOf(kws, b) {
      EarlierBlock(kws, step, more, b);
    }
  }

  /** Unpacking the packed report steps gives them back, each with its number and, byte for byte, with its file. */
  lemma {:induction false} UnpackUndoesPack(blocks: seq<Block>)
    requires ValidBlocks(blocks) && NoSeqnumInside(blocks)
    ensures UnpacksTo(Unified(blocks), blocks)
  {
    if blocks != [] {
      LastOfUnified(blocks);
      UnifiedIsValid(blocks);
      hide *;
      var front, last := blocks[..|blocks|-1], blocks[|blocks|-1];
      UnpackUndoesPack(front);
      UnpacksOneMore(Unified(front), front, last.step, last.kws);
      assert front + [Block(last.step, last.kws)] == blocks;
    }
  }

  lemma LastOfUnified(blocks: seq<Block>)
    requires ValidBlocks(blocks) && NoSeqnumInside(blocks) && blocks != []
    ensures
      var front, last := blocks[..|blocks|-1], blocks[|blocks|-1];
      && ValidBlocks(front) && NoSeqnumInside(front)
      && FitsInt32(last.step) && AllValid(last.kws) && NoSeqnum(last.kws) && AllValid(Unified(front))
      && Unified(blocks) == Unified(front) + [Seqnum(last.step)] + last.kws
    ensures forall b :: 0 <= b < |blocks| ==> AllValid(blocks[b].kws)
  {
    UnifiedIsValid(blocks[..|blocks|-1]);
    hide AllValid, NoSeqnum, Seqnum;
  }

  /** The file has nothing behind its keywords. */
  ghost predicate Whole(bytes: seq<Byte>, kws: seq<Keyword>) {
    AllValid(kws) && bytes == FileBytes(kws)
  }

  /** Packs restart files and unpacks the result: the files come back. */
  method PackAndUnpack(sources: seq<Source>, ghost files: seq<seq<Keyword>>) returns (ok: bool, unpacked: seq<Unpacked>)
    requires Hold(sources, files) && forall i :: 0 <= i < |files| ==> NoSeqnum(files[i])
    requires forall i :: 0 <= i < |sources| ==> sources[i].isRestart
    ensures ok <==>
            (|sources| > 0 ==> sources[0].step != -1)
            && forall i :: 0 < i < |sources| ==> sources[i - 1].step != sources[i].step
    ensures ok ==> |unpacked| == |sources|
    ensures ok ==> forall i :: 0 <= i < |sources| ==>
              AllValid(files[i]) && unpacked[i] == Unpacked(sources[i].step, FileBytes(files[i]))
    ensures ok ==> forall i :: 0 <= i < |sources| && Whole(sources[i].bytes, files[i]) ==>
            unpacked[i].bytes == sources[i].bytes
  {
    hide FileBytes, Unified, BlockStarts, BlockOf, Keywords.Valid, Scanned, Entries, NoSeqnum;
    var target;
    ghost var blocks := Kept(sources, files, |sources|);
    AllKept(sources, files, |sources|);
    ok, target := Pack(sources, files);
    unpacked := [];
    if ok {
      UnpackUndoesPack(blocks);
      WholeShows(Unified(blocks));
      ok, unpacked := Unpack(target.bytes, Unified(blocks));
    }
  }

  lemma {:induction false} AllKept(sources: seq<Source>, files: seq<seq<Keyword>>, m: nat)
    requires Hold(sources, files) && m <= |sources| && forall i :: 0 <= i < |sources| ==> sources[i].isRestart
    ensures |Kept(sources, files, m)| == m
    ensures forall i :: 0 <= i < m ==> Kept(sources, files, m)[i] == Block(sources[i].step, files[i])
  {
    hide Shows, FileBytes, Keywords.Valid;
    if m > 0 { AllKept(sources, files, m - 1); }
  }
}
