/** Packing restart files into one unified file, and unpacking a unified file again. */
module Packing {
  import opened Prelude
  import opened Bytes
  import opened FortranIO
  import opened KeywordTypes
  import opened Keywords
  import opened KeywordIO
  import opened FileKeywords
  import opened FileViews
  import opened FileScan
  import opened FileLayout

  /** "SEQNUM" */
  const SEQNUM: Name := [83, 69, 81, 78, 85, 77]

  /** The keyword that stands in front of a report step in a unified file. */
  function Seqnum(step: int): Keyword
    requires FitsInt32(step)
  {
    Keyword(Pad(SEQNUM, HEADER_LENGTH), Inte, [Number(Reversed(EncodeInt(step)))])
  }

  lemma SeqnumIsValid(step: int)
    requires FitsInt32(step)
    ensures Keywords.Valid(Seqnum(step)) && Strip(Seqnum(step).header8) == SEQNUM
  {
    StripPadded(SEQNUM, HEADER_LENGTH);
  }

  /** The first element of a keyword, if that is an integer. */
  function FirstInt(kw: Keyword): Option<int> {
    if kw.dataType == Inte && kw.data != [] && Fits(Inte, kw.data[0])
      then Some(DecodeInt(Reversed(kw.data[0].native))) else None
  }

  /**
   * The keyword in front of a report step, byte by byte: a header with the letters SEQNUM and two spaces, one element
   * and INTE, and a record of four bytes whose weights give the step.
   */
  lemma SeqnumLayout(step: int)
    requires FitsInt32(step)
    ensures Keywords.Valid(Seqnum(step))
    ensures
      var b := KeywordBytes(Seqnum(step));
      && |b| == 36 && b[..4] == [0, 0, 0, 16] && b[4..12] == [83, 69, 81, 78, 85, 77, 32, 32] && Weighs(b, 12, 1)
      && b[16..20] == [73, 78, 84, 69] && b[20..24] == [0, 0, 0, 16]
      && Weighs(b, 24, 4) && Weighs(b, 28, step) && Weighs(b, 32, 4)
  {
    SeqnumIsValid(step);
    var kw := Seqnum(step);
    hide KeywordBytes, EncodeInt, Weighs;
    assert kw.header8 == [83, 69, 81, 78, 85, 77, 32, 32];
    HeaderLayout(kw);
    KeywordLayout(kw);
    RecordLayout(kw, 0);
    StepOfSeqnum(step);
    FirstIntInFile(kw);
  }

  /** The number of a report step is what the first four bytes of the data weigh. */
  lemma FirstIntInFile(kw: Keyword)
    requires Keywords.Valid(kw)
    ensures FirstInt(kw).Some? <==> kw.dataType == Inte && kw.data != []
    ensures FirstInt(kw).Some? ==> Weighs(KeywordBytes(kw), 28, FirstInt(kw).value)
  {
    hide KeywordBytes, HeaderBytes, ValidHeader, Weighs, DecodeInt;
    if kw.dataType == Inte && kw.data != [] {
      assert Fits(Inte, kw.data[0]);
      ElementLayout(kw, 0);
      assert 0 / PerRecord(Inte) == 0;
      NativeWeighs(KeywordBytes(kw), kw.data[0].native);
    }
  }

  lemma NativeWeighs(b: seq<Byte>, native: seq<Byte>)
    requires |native| == 4 && |b| >= 32 && forall k :: 0 <= k < 4 ==> b[28..32][k] == native[3 - k]
    ensures Weighs(b, 28, DecodeInt(Reversed(native)))
  {
    assert Reversed(native) == b[28..32];
    assert b[28..32][0] == b[28] && b[28..32][1] == b[29] && b[28..32][2] == b[30] && b[28..32][3] == b[31];
    DigitsOf(b[28..32]);
    hide DecodeInt;
  }

  lemma StepOfSeqnum(step: int)
    requires FitsInt32(step)
    ensures FirstInt(Seqnum(step)) == Some(step)
  {
    ReversedTwice(EncodeInt(step));
    IntRoundTrip(step);
  }

  /** A report step with its keywords. */
  datatype Block = Block(step: int, kws: seq<Keyword>)

  ghost predicate ValidBlocks(blocks: seq<Block>) {
    forall b :: 0 <= b < |blocks| ==> FitsInt32(blocks[b].step) && AllValid(blocks[b].kws)
  }

  /** The keywords of a unified file. */
  ghost function Unified(blocks: seq<Block>): (kws: seq<Keyword>)
    requires ValidBlocks(blocks)
  {
    if blocks == [] then [] else
      var last := blocks[|blocks|-1];
      Unified(blocks[..|blocks|-1]) + [Seqnum(last.step)] + last.kws
  }

  lemma {:induction false} UnifiedIsValid(blocks: seq<Block>)
    requires ValidBlocks(blocks)
    ensures AllValid(Unified(blocks))
  {
    hide Keywords.Valid, Seqnum;
    if blocks != [] {
      UnifiedIsValid(blocks[..|blocks|-1]);
      SeqnumIsValid(blocks[|blocks|-1].step);
    }
  }

  /** A file on disk: whether it is of the type that is packed, its report step, and its bytes. */
  datatype Source = Source(isRestart: bool, step: int, bytes: seq<Byte>)

  /** The sources show the given keywords. */
  ghost predicate Hold(sources: seq<Source>, files: seq<seq<Keyword>>) {
    && |sources| == |files|
    && forall i :: 0 <= i < |sources| ==>
         FitsInt32(sources[i].step) && Shows(sources[i].bytes, files[i])
  }

  /** The report steps among the first `m` sources, in order. */
  ghost function Kept(sources: seq<Source>, files: seq<seq<Keyword>>, m: nat): (blocks: seq<Block>)
    requires Hold(sources, files) && m <= |sources|
    ensures ValidBlocks(blocks)
  {
    if m == 0 then []
    else Kept(sources, files, m - 1) + if sources[m - 1].isRestart
      then [Block(sources[m - 1].step, files[m - 1])] else []
  }

  /** No report step follows itself, and none is -1 at the start. */
  ghost predicate NoStepTwice(blocks: seq<Block>) {
    && (blocks != [] ==> blocks[0].step != -1)
    && forall b :: 0 < b < |blocks| ==> blocks[b - 1].step != blocks[b].step
  }

  ghost function LastStep(blocks: seq<Block>): int {
    if blocks == [] then -1 else blocks[|blocks|-1].step
  }

  /** Writes the number of a report step and then all its keywords. */
  method PackStep(source: Source, target: FortIO, ghost kws: seq<Keyword>, ghost done: seq<Keyword>)
    requires FitsInt32(source.step) && Shows(source.bytes, kws) && AllValid(done)
    requires target.bytes == FileBytes(done) && target.pos == |target.bytes|
    modifies target`pos, target`bytes
    ensures AllValid(done + [Seqnum(source.step)] + kws)
    ensures target.bytes == FileBytes(done + [Seqnum(source.step)] + kws) && target.pos == |target.bytes|
  {
    hide FileBytes, Seqnum, KeywordBytes, Overwrite, Scanned, Entries, EntriesOf, IndexOf, ListsNames, AllStand;
    hide Keywords.Valid, LoadedEntry;
    var file := new File(source.bytes, false);
    var scanned := file.Scan();
    EntriesStand(source.bytes, kws, file.globalView.kwList);
    SeqnumIsValid(source.step);
    FwriteKeyword(Seqnum(source.step), target);
    AppendToFile(done, [Seqnum(source.step)]);
    OneKeyword(Seqnum(source.step));
    WholeList(kws);
    var written := file.globalView.Write(file.io, target, 0, kws);
    AppendToFile(done + [Seqnum(source.step)], kws);
  }

  /**
   * Writes all report steps into one file, each behind its number. It stops when a step would be written twice in a
   * row.
   */
  method Pack(sources: seq<Source>, ghost files: seq<seq<Keyword>>) returns (ok: bool, target: FortIO)
    requires Hold(sources, files)
    ensures fresh(target) && (ok <==> NoStepTwice(Kept(sources, files, |sources|)))
    ensures ok ==> AllValid(Unified(Kept(sources, files, |sources|)))
                   && target.bytes == FileBytes(Unified(Kept(sources, files, |sources|)))
  {
    hide FileBytes, Unified, Kept, NoStepTwice, Seqnum, AllValid;
    target := new FortIO([], true);
    var prevReportStep := -1;
    PackStarts(sources, files);
    for i := 0 to |sources|
      invariant fresh(target) && NoStepTwice(Kept(sources, files, i)) &&
                prevReportStep == LastStep(Kept(sources, files, i))
      invariant AllValid(Unified(Kept(sources, files, i)))
      invariant target.bytes == FileBytes(Unified(Kept(sources, files, i))) && target.pos == |target.bytes|
    {
      KeptMore(sources, files, i);
      if sources[i].isRestart {
        if sources[i].step == prevReportStep {
          StepTwiceRemains(sources, files, i + 1, |sources|);
          ok := false;
          return;
        }
        prevReportStep := sources[i].step;
        PackStep(sources[i], target, files[i], Unified(Kept(sources, files, i)));
      }
    }
    ok := true;
  }

  lemma PackStarts(sources: seq<Source>, files: seq<seq<Keyword>>)
    requires Hold(sources, files)
    ensures Kept(sources, files, 0) == [] && NoStepTwice([]) && AllValid([]) && Unified([]) == [] && FileBytes([]) == []
  {
  }

  lemma KeptMore(sources: seq<Source>, files: seq<seq<Keyword>>, i: nat)
    requires Hold(sources, files) && i < |sources|
    requires NoStepTwice(Kept(sources, files, i))
    ensures
      var before, now := Kept(sources, files, i), Kept(sources, files, i + 1);
      if sources[i].isRestart then
        && now == before + [Block(sources[i].step, files[i])]
        && Unified(now) == Unified(before) + [Seqnum(sources[i].step)] + files[i]
        && AllValid(Unified(before)) && AllValid(Unified(now)) && AllValid(files[i]) && FitsInt32(sources[i].step)
        && (NoStepTwice(now) <==> sources[i].step != LastStep(before))
      else now == before
  {
    hide Seqnum, FileBytes, Keywords.Valid, AllValid;
    var before, now := Kept(sources, files, i), Kept(sources, files, i + 1);
    if sources[i].isRestart {
      assert now[..|now|-1] == before;
      UnifiedIsValid(before);
      UnifiedIsValid(now);
      if before != [] { assert now[|now|-2] == before[|before|-1]; }
    }
  }

  lemma {:induction false} StepTwiceRemains(sources: seq<Source>, files: seq<seq<Keyword>>, i: nat, m: nat)
    requires Hold(sources, files) && i <= m <= |sources| && !NoStepTwice(Kept(sources, files, i))
    ensures !NoStepTwice(Kept(sources, files, m))
  {
    hide NoStepTwice, Shows, FileBytes, Keywords.Valid;
    if i < m {
      StepTwiceRemains(sources, files, i, m - 1);
      FrontStepTwice(Kept(sources, files, m - 1), Block(sources[m - 1].step, files[m - 1]));
      assert Kept(sources, files, m - 1) + [] == Kept(sources, files, m - 1);
    }
  }

  lemma FrontStepTwice(blocks: seq<Block>, last: Block)
    requires !NoStepTwice(blocks)
    ensures !NoStepTwice(blocks + [last])
  {
    var now := blocks + [last];
    if NoStepTwice(now) {
      forall b | 0 < b < |blocks| ensures blocks[b - 1].step != blocks[b].step {
        assert now[b - 1] == blocks[b - 1] && now[b] == blocks[b];
      }
      assert false;
    }
  }

  lemma AppendToFile(kws: seq<Keyword>, more: seq<Keyword>)
    requires AllValid(kws) && AllValid(more)
    ensures AllValid(kws + more)
    ensures Overwrite(FileBytes(kws), |FileBytes(kws)|, FileBytes(more)) == FileBytes(kws + more)
    ensures |FileBytes(kws + more)| == |FileBytes(kws)| + |FileBytes(more)|
  {
    hide FileBytes, Keywords.Valid;
    FileBytesSum(kws, more);
  }

  lemma OneKeyword(kw: Keyword)
    requires Keywords.Valid(kw)
    ensures FileBytes([kw]) == KeywordBytes(kw)
  {
    hide KeywordBytes;
  }

  lemma WholeList(kws: seq<Keyword>)
    ensures kws[0..] == kws
  {
  }
}
