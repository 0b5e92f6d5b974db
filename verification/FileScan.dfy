/** Opening a file: scanning it for keywords, loading them, and saving one of them. */
module FileScan {
  import opened Prelude
  import opened Bytes
  import opened FortranIO
  import opened KeywordTypes
  import opened Keywords
  import opened KeywordIO
  import opened FileKeywords
  import opened FileViews

  /** The entries that a scan finds from a position on; none at all if it meets the name of no type. */
  ghost function Scanned(bytes: seq<Byte>, writable: bool, pos: nat): Option<seq<Entry>>
    decreases |bytes| - pos
  {
    match HeaderAt(bytes, pos)
    case ReadFail => Some([])
    case UnknownType => None
    case Found(h) =>
      var next := pos + HEADER_FORTIO_SIZE + if h.size <= 0 then 0 else DataSize(h.dataType, h.size);
      if next > |bytes| && !writable then Some([]) else Prefixed(EntryOf(h, pos), Scanned(bytes, writable, next))
  }

  function Prefixed(entry: Entry, rest: Option<seq<Entry>>): Option<seq<Entry>> {
    if rest.None? then None else Some([entry] + rest.value)
  }

  /** How many keywords a scan finds in the first `size` bytes of a file. A file that may be written also counts a
      keyword of which only the header is there. */
  ghost function CountIn(kws: seq<Keyword>, size: nat, writable: bool): nat
    requires AllValid(kws)
  {
    if kws == [] then 0
    else if |KeywordBytes(kws[0])| <= size then 1 + CountIn(kws[1..], size - |KeywordBytes(kws[0])|, writable)
    else if writable && size >= HEADER_FORTIO_SIZE then 1
    else 0
  }

  /** In a file that is only read these are exactly the keywords that lie wholly inside. */
  lemma {:induction false} CountsWholeKeywords(kws: seq<Keyword>, size: nat)
    requires AllValid(kws)
    ensures
      var n := CountIn(kws, size, false);
      n <= |kws| && |FileBytes(kws[..n])| <= size && (n == |kws| || size < |FileBytes(kws[..n + 1])|)
    decreases |kws|
  {
    hide KeywordBytes;
    if kws != [] && |KeywordBytes(kws[0])| <= size {
      var rest, left := kws[1..], size - |KeywordBytes(kws[0])|;
      CountsWholeKeywords(rest, left);
      var n := CountIn(rest, left, false);
      assert kws[..n + 1][1..] == rest[..n];
      if n < |rest| { assert kws[..n + 2][1..] == rest[..n + 1]; }
    } else if kws != [] {
      assert kws[..0] == [];
      assert FileBytes(kws[..1]) == KeywordBytes(kws[0]) + FileBytes(kws[..1][1..]);
    }
  }

  /** The header of a keyword is found if it is wholly inside the first `size` bytes, and nothing is found otherwise. */
  lemma HeaderInPrefix(whole: seq<Byte>, size: nat, pos: nat, kw: Keyword)
    requires Keywords.Valid(kw) && At(whole, pos, KeywordBytes(kw)) && pos <= size <= |whole|
    ensures HeaderAt(whole[..size], pos) == if pos + HEADER_FORTIO_SIZE <= size then Found(kw.GetHeader()) else ReadFail
  {
    hide HeaderBytes, DataBytes;
    if pos + HEADER_FORTIO_SIZE <= size {
      var record := Record(HeaderBytes(kw.GetHeader()));
      AtSplit(whole, pos, record, DataBytes(kw));
      assert whole[..size][pos..pos + |record|] == whole[pos..pos + |record|];
      hide Record, HeaderAt;
      HeaderRoundTrip(whole[..size], pos, kw.GetHeader());
    }
  }

  lemma NothingBehind(bytes: seq<Byte>, writable: bool, pos: nat)
    requires pos + HEADER_FORTIO_SIZE > |bytes|
    ensures Scanned(bytes, writable, pos) == Some([])
  {
  }

  lemma FirstEntries(kws: seq<Keyword>, pos: nat, n: nat)
    requires AllValid(kws) && n < |kws|
    ensures Entries(kws, pos)[..n + 1] ==
            [EntryOf(kws[0].GetHeader(), pos)] + Entries(kws[1..], pos + |KeywordBytes(kws[0])|)[..n]
    ensures Entries(kws, pos)[..0] == [] && Entries(kws, pos)[..1] == [EntryOf(kws[0].GetHeader(), pos)]
  {
    hide EntryOf, KeywordBytes, Keywords.Valid;
  }

  /** What a scan makes of one keyword that stands in the file, of which the first `size` bytes are there. */
  lemma ScanOfKeyword(whole: seq<Byte>, size: nat, writable: bool, pos: nat, kw: Keyword)
    requires Keywords.Valid(kw) && At(whole, pos, KeywordBytes(kw)) && pos <= size <= |whole|
    ensures
      var next, entry := pos + |KeywordBytes(kw)|, EntryOf(kw.GetHeader(), pos);
      Scanned(whole[..size], writable, pos) ==
        if next <= size then Prefixed(entry, Scanned(whole[..size], writable, next))
        else if writable && pos + HEADER_FORTIO_SIZE <= size then Some([entry])
        else Some([])
  {
    hide At, KeywordBytes, HeaderAt, EntryOf, DataSize, Keywords.Valid, Scanned;
    StepOfScan(whole[..size], writable, pos);
    HeaderInPrefix(whole, size, pos, kw);
    SizeOfKeyword(kw);
    EmptyDataSize(kw.dataType);
    var next := pos + |KeywordBytes(kw)|;
    if next > size {
      NothingBehind(whole[..size], writable, next);
      var entry := EntryOf(kw.GetHeader(), pos);
      assert [entry] + [] == [entry];
    }
  }

  /** A scan of any number of leading bytes of a file finds the keywords that it should, in order, each with the
      right place, name, type and size. */
  lemma {:induction false} ScanOfPrefix(whole: seq<Byte>, size: nat, writable: bool, pos: nat, kws: seq<Keyword>)
    requires AllValid(kws) && At(whole, pos, FileBytes(kws)) && pos <= size <= |whole| == pos + |FileBytes(kws)|
    ensures CountIn(kws, size - pos, writable) <= |kws|
    ensures Scanned(whole[..size], writable, pos) == Some(Entries(kws, pos)[..CountIn(kws, size - pos, writable)])
    decreases |kws|
  {
    hide At, KeywordBytes, EntryOf, Keywords.Valid, Scanned, Entries;
    if kws == [] {
      NothingBehind(whole[..size], writable, pos);
    } else {
      AtSplit(whole, pos, KeywordBytes(kws[0]), FileBytes(kws[1..]));
      ScanOfKeyword(whole, size, writable, pos, kws[0]);
      var next := pos + |KeywordBytes(kws[0])|;
      if next <= size {
        ScanOfPrefix(whole, size, writable, next, kws[1..]);
        FirstEntries(kws, pos, CountIn(kws[1..], size - next, writable));
      } else {
        FirstEntries(kws, pos, 0);
      }
    }
  }

  lemma EmptyDataSize(t: DataType)
    ensures DataSize(t, 0) == 0
  {
    assert 0 / BlockSize(t) == 0 && 0 % BlockSize(t) == 0;
  }

  /** A scan of a whole file finds all its keywords. */
  lemma ScanOfWhole(kws: seq<Keyword>, writable: bool)
    requires AllValid(kws)
    ensures Scanned(FileBytes(kws), writable, 0) == Some(Entries(kws, 0))
  {
    var whole := FileBytes(kws);
    assert whole[..|whole|] == whole && whole[0..0 + |whole|] == whole;
    assert At(whole, 0, whole);
    hide FileBytes, Entries, At, Scanned, CountIn, Keywords.Valid;
    ScanOfPrefix(whole, |whole|, writable, 0, kws);
    CountAll(kws, |whole|, writable);
    assert Entries(kws, 0)[..|kws|] == Entries(kws, 0);
  }

  lemma {:induction false} CountAll(kws: seq<Keyword>, size: nat, writable: bool)
    requires AllValid(kws) && size == |FileBytes(kws)|
    ensures CountIn(kws, size, writable) == |kws|
    decreases |kws|
  {
    hide KeywordBytes;
    if kws != [] { CountAll(kws[1..], size - |KeywordBytes(kws[0])|, writable); }
  }

  /** The entries of the listed keywords. */
  function EntriesOf(list: seq<FileKW>): (entries: seq<Entry>)
    ensures |entries| == |list| && forall i :: 0 <= i < |list| ==> entries[i] == list[i].entry
  {
    seq(|list|, i requires 0 <= i < |list| => list[i].entry)
  }

  /** The listed keywords are those of the file. */
  lemma EntriesStand(bytes: seq<Byte>, kws: seq<Keyword>, list: seq<FileKW>)
    requires AllValid(kws) && FileBytes(kws) <= bytes && EntriesOf(list) == Entries(kws, 0)
    ensures |list| == |kws| && AllStand(bytes, list, kws)
  {
    hide FileBytes, Entries, KeywordBytes, Matches, At, Keywords.Valid;
    forall i | 0 <= i < |list| ensures Stands(bytes, list[i].entry, kws[i]) {
      EntryPointsInto(bytes, kws, i);
      assert EntriesOf(list)[i] == Entries(kws, 0)[i];
    }
  }

  /** Opened for reading, a file shows these keywords, and they stand at its front; what comes behind is ignored. */
  ghost predicate Shows(bytes: seq<Byte>, kws: seq<Keyword>) {
    AllValid(kws) && FileBytes(kws) <= bytes && Scanned(bytes, false, 0) == Some(Entries(kws, 0))
  }

  lemma WholeShows(kws: seq<Keyword>)
    requires AllValid(kws)
    ensures Shows(FileBytes(kws), kws)
  {
    ScanOfWhole(kws, false);
  }

  /** Any part of a file from its start shows the keywords that lie wholly inside. */
  lemma PrefixShows(kws: seq<Keyword>, size: nat)
    requires AllValid(kws) && size <= |FileBytes(kws)|
    ensures CountIn(kws, size, false) <= |kws| && Shows(FileBytes(kws)[..size], kws[..CountIn(kws, size, false)])
  {
    hide FileBytes, Entries, Keywords.Valid, Scanned, CountIn, At;
    var whole, n := FileBytes(kws), CountIn(kws, size, false);
    CountsWholeKeywords(kws, size);
    FrontStands(whole, whole);
    ScanOfPrefix(whole, size, false, 0, kws);
    FrontOfFile(kws, n);
    assert whole[..size][..|FileBytes(kws[..n])|] == FileBytes(kws[..n]);
  }

  lemma {:induction false} EntriesOfFront(kws: seq<Keyword>, n: nat, pos: nat)
    requires AllValid(kws) && n <= |kws|
    ensures Entries(kws[..n], pos) == Entries(kws, pos)[..n]
    decreases n
  {
    hide KeywordBytes, EntryOf, Keywords.Valid;
    if n > 0 {
      EntriesOfFront(kws[1..], n - 1, pos + |KeywordBytes(kws[0])|);
      assert kws[..n][1..] == kws[1..][..n - 1];
    }
  }

  lemma {:induction false} BytesOfFront(kws: seq<Keyword>, n: nat)
    requires AllValid(kws) && n <= |kws|
    ensures FileBytes(kws[..n]) <= FileBytes(kws)
    decreases n
  {
    hide KeywordBytes, Keywords.Valid;
    if n > 0 {
      BytesOfFront(kws[1..], n - 1);
      assert kws[..n][1..] == kws[1..][..n - 1];
    }
  }

  lemma FrontOfFile(kws: seq<Keyword>, n: nat)
    requires AllValid(kws) && n <= |kws|
    ensures AllValid(kws[..n]) && Entries(kws[..n], 0) == Entries(kws, 0)[..n] && FileBytes(kws[..n]) <= FileBytes(kws)
  {
    hide FileBytes, Entries, Keywords.Valid;
    EntriesOfFront(kws, n, 0);
    BytesOfFront(kws, n);
  }

  /** A keyword that lies wholly inside a part of a file is loaded from it. */
  lemma WholeKeywordLoads(kws: seq<Keyword>, size: nat, n: nat)
    requires AllValid(kws) && size <= |FileBytes(kws)| && n < CountIn(kws, size, false)
    ensures n < |kws| && LoadedEntry(FileBytes(kws)[..size], Entries(kws, 0)[n]) == Some(NormalKeyword(kws[n]))
  {
    hide FileBytes, Entries, Keywords.Valid, LoadedEntry, NormalKeyword, CountIn, Scanned;
    var whole := CountIn(kws, size, false);
    PrefixShows(kws, size);
    FrontOfFile(kws, whole);
    EntryLoads(FileBytes(kws)[..size], kws[..whole], n);
    assert kws[..whole][n] == kws[n];
  }

  /** The first keyword that does not lie wholly inside is not loaded. */
  lemma NextKeywordIsCut(kws: seq<Keyword>, size: nat)
    requires AllValid(kws) && size <= |FileBytes(kws)| && CountIn(kws, size, false) < |kws|
    ensures LoadedEntry(FileBytes(kws)[..size], Entries(kws, 0)[CountIn(kws, size, false)]) == None
  {
    hide FileBytes, Entries, Keywords.Valid, LoadedEntry, NormalKeyword, CountIn, Scanned, At;
    var n := CountIn(kws, size, false);
    CountsWholeKeywords(kws, size);
    EntryPointsAt(kws, 0, n);
    SplitFront(kws, n);
    CutKeyword(FileBytes(kws), size, Entries(kws, 0)[n], kws[n]);
  }

  /** Loading the entries that the scan of a part of a file lists gives the keywords that lie wholly inside, and nothing
      for a keyword of which only the header is there. */
  lemma PrefixEntryLoads(kws: seq<Keyword>, size: nat, writable: bool, n: nat)
    requires AllValid(kws) && size <= |FileBytes(kws)| && n < CountIn(kws, size, writable)
    ensures n < |kws|
    ensures LoadedEntry(FileBytes(kws)[..size], Entries(kws, 0)[n]) ==
            if n < CountIn(kws, size, false) then Some(NormalKeyword(kws[n])) else None
  {
    hide FileBytes, Entries, Keywords.Valid, LoadedEntry, NormalKeyword, CountIn, Scanned, At;
    FrontStands(FileBytes(kws), FileBytes(kws));
    ScanOfPrefix(FileBytes(kws), size, writable, 0, kws);
    if n < CountIn(kws, size, false) {
      WholeKeywordLoads(kws, size, n);
    } else {
      CountsOneMore(kws, size, writable);
      NextKeywordIsCut(kws, size);
    }
  }

  lemma SplitFront(kws: seq<Keyword>, n: nat)
    requires AllValid(kws) && n < |kws|
    ensures |FileBytes(kws[..n + 1])| == |FileBytes(kws[..n])| + |KeywordBytes(kws[n])|
  {
    hide KeywordBytes, Keywords.Valid;
    assert kws[..n + 1] == kws[..n] + [kws[n]];
    FileBytesSum(kws[..n], [kws[n]]);
    assert FileBytes([kws[n]]) == KeywordBytes(kws[n]) + FileBytes([kws[n]][1..]);
  }

  lemma {:induction false} CountsOneMore(kws: seq<Keyword>, size: nat, writable: bool)
    requires AllValid(kws)
    ensures CountIn(kws, size, false) <= CountIn(kws, size, writable) <= CountIn(kws, size, false) + 1
    decreases |kws|
  {
    hide KeywordBytes, Keywords.Valid;
    if kws != [] && |KeywordBytes(kws[0])| <= size { CountsOneMore(kws[1..], size - |KeywordBytes(kws[0])|, writable); }
  }

  /** A keyword that is cut off cannot be loaded. */
  lemma CutKeyword(whole: seq<Byte>, size: nat, entry: Entry, kw: Keyword)
    requires Keywords.Valid(kw) && At(whole, entry.offset, KeywordBytes(kw)) && size <= |whole|
    requires size < entry.offset + |KeywordBytes(kw)|
    ensures LoadedEntry(whole[..size], entry) == None
  {
    hide Records, Segments, Blocks, Joined, EncodeAll, DecodeAll, HeaderBytes, HeaderAt, Times;
    var bytes, t, n := whole[..size], kw.dataType, |kw.data|;
    var data, length := entry.offset + HEADER_FORTIO_SIZE, Times(n, IoSize(t));
    SizeOfKeyword(kw);
    if data > size {
      HeaderNotThere(bytes, entry.offset);
      return;
    }
    HeaderInPrefix(whole, size, entry.offset, kw);
    EmptyDataSize(t);
    AtSplit(whole, entry.offset, Record(HeaderBytes(kw.GetHeader())), DataBytes(kw));
    if Segments(bytes, data, length).Some? {
      var segments := Segments(bytes, data, length).value;
      SegmentsStandThere(bytes, data, length);
      StandsInWhole(whole, size, data, Records(segments));
      SegmentsOfRecords(whole, data, segments);
      ChunkSize(t);
      NoMoreThanNothing(t, kw.data);
      BlocksMeaning(EncodeAll(t, kw.data), Chunk(t));
      SegmentsOfRecords(whole, data, Blocks(EncodeAll(t, kw.data), Chunk(t)));
    }
  }

  lemma HeaderNotThere(bytes: seq<Byte>, pos: nat)
    requires pos + HEADER_FORTIO_SIZE > |bytes|
    ensures HeaderAt(bytes, pos) == ReadFail
  {
  }

  lemma StandsInWhole(whole: seq<Byte>, size: nat, pos: nat, chunk: seq<Byte>)
    requires size <= |whole| && At(whole[..size], pos, chunk)
    ensures At(whole, pos, chunk) && pos + |chunk| <= size
  {
    assert whole[pos..pos + |chunk|] == whole[..size][pos..pos + |chunk|];
  }

  /** A keyword "A" of one element: of its 36 bytes the first 24 are the header. */
  const HEADER_ONLY: Keyword := Keyword([65, SPACE, SPACE, SPACE, SPACE, SPACE, SPACE, SPACE], Inte,
                                        [Number([1, 0, 0, 0])])

  /**
   * Cut off behind its header, it is listed if the file may be written, and then it cannot be loaded; it is not listed
   * if the file is only read.
   */
  lemma HeaderOnlyIsListed()
    ensures Keywords.Valid(HEADER_ONLY) && |FileBytes([HEADER_ONLY])| == 36
    ensures
      var bytes, entry := FileBytes([HEADER_ONLY])[..24], Entries([HEADER_ONLY], 0)[0];
      && Scanned(bytes, true, 0) == Some([entry]) && LoadedEntry(bytes, entry) == None
      && Scanned(bytes, false, 0) == Some([])
  {
    var kws := [HEADER_ONLY];
    assert Keywords.Valid(HEADER_ONLY);
    SizeOfKeyword(HEADER_ONLY);
    assert FortioSize(Inte, 1) == 36;
    hide KeywordBytes, LoadedEntry, Scanned, Keywords.Valid;
    assert FileBytes(kws) == KeywordBytes(HEADER_ONLY) + FileBytes(kws[1..]);
    FrontStands(FileBytes(kws), FileBytes(kws));
    ScanOfPrefix(FileBytes(kws), 24, true, 0, kws);
    ScanOfPrefix(FileBytes(kws), 24, false, 0, kws);
    assert Entries(kws, 0)[..1] == [Entries(kws, 0)[0]];
    PrefixEntryLoads(kws, 24, true, 0);
  }

  /** A keyword was listed, or nothing more is there, or a type is unknown. */
  datatype ScanStep = More | Ended | Failed

  class File {
    const io: FortIO
    const globalView: FileView

    /** Opens a file; nothing has been scanned yet. */
    constructor (bytes: seq<Byte>, writable: bool)
      ensures fresh(io) && fresh(globalView) && globalView.kwList == []
      ensures io.bytes == bytes && io.writable == writable && io.readSize == |bytes|
    {
      io := new FortIO(bytes, writable);
      globalView := new FileView([]);
    }

    /** Lists the next keyword, unless its header or its data is not wholly there. */
    method ScanNext() returns (r: ScanStep)
      requires io.readSize == |io.bytes|
      modifies io`pos, globalView`kwList
      ensures
        var rest := Scanned(io.bytes, io.writable, old(io.pos));
        match r
        case More =>
          && old(io.pos) < io.pos && old(io.pos) < |io.bytes| && |globalView.kwList| == |old(globalView.kwList)| + 1
          && var kw := globalView.kwList[|old(globalView.kwList)|];
          && globalView.kwList == old(globalView.kwList) + [kw] && fresh(kw) && kw.kw == None
          && rest == Prefixed(kw.entry, Scanned(io.bytes, io.writable, io.pos))
        case Ended => rest == Some([]) && globalView.kwList == old(globalView.kwList)
        case Failed => rest == None
    {
      hide HeaderAt, DataSize, EntryOf, Scanned;
      StepOfScan(io.bytes, io.writable, io.pos);
      var eof := io.ReadAtEof();
      if eof {
        NothingBehind(io.bytes, io.writable, io.pos);
        return Ended;
      }
      var currentOffset := io.pos;
      var read := FreadHeader(io);
      if read.ReadFail? { return Ended; }
      if read.UnknownType? { return Failed; }
      var kw := new FileKW(EntryOf(read.header, currentOffset));
      EntryFields(read.header, currentOffset);
      var skipped := kw.SkipData(io);
      if !skipped { return Ended; }
      globalView.AddKw(kw);
      r := More;
    }

    /** Lists the keywords of the file. It goes on until a header or the data of a keyword is not wholly there. */
    method Scan() returns (ok: bool)
      requires globalView.kwList == [] && io.readSize == |io.bytes|
      modifies io`pos, globalView
      ensures ok == Scanned(io.bytes, io.writable, 0).Some?
      ensures ok ==> EntriesOf(globalView.kwList) == Scanned(io.bytes, io.writable, 0).value && globalView.IsIndexed()
      ensures ok ==> forall i :: 0 <= i < |globalView.kwList| ==>
              fresh(globalView.kwList[i]) && globalView.kwList[i].kw == None
    {
      hide EntriesOf, Scanned, Joins, FileView.IsIndexed, FileKW.Consistent, Prefixed;
      var moved := io.Fseek(0, FromStart);
      ghost var all := Scanned(io.bytes, io.writable, 0);
      JoinsStart(all);
      while true
        invariant forall i :: 0 <= i < |globalView.kwList| ==>
                  fresh(globalView.kwList[i]) && globalView.kwList[i].kw == None
        invariant Joins(EntriesOf(globalView.kwList), Scanned(io.bytes, io.writable, io.pos), all)
        decreases |io.bytes| - io.pos
      {
        ghost var list, rest := globalView.kwList, Scanned(io.bytes, io.writable, io.pos);
        JoinsEnd(EntriesOf(list), rest, all);
        var step := ScanNext();
        if step.Failed? { return false; }
        if step.Ended? { break; }
        ghost var kw := globalView.kwList[|list|];
        JoinsStep(EntriesOf(list), kw.entry, Scanned(io.bytes, io.writable, io.pos), all);
        OneMoreEntry(list, kw);
      }
      globalView.MakeIndex();
      ok := true;
    }

    /**
     * The file has the given keywords at its front, and the view lists them first. Behind them there may be a keyword
     * that is cut off, or other bytes.
     */
    ghost predicate Represents(kws: seq<Keyword>)
      reads io`bytes, globalView`kwList
    {
      AllValid(kws) && FileBytes(kws) <= io.bytes && Entries(kws, 0) <= EntriesOf(globalView.kwList)
    }

    function Listed(n: nat): FileKW
      requires n < |globalView.kwList|
      reads globalView`kwList
    {
      globalView.kwList[n]
    }

    /** Loads keyword `n`. */
    method GetKw(n: nat, ghost kws: seq<Keyword>) returns (ok: bool)
      requires Represents(kws) && n < |kws| && n < |globalView.kwList| && (io.writable || |io.bytes| <= io.readSize)
      requires Listed(n).Consistent(io.bytes)
      modifies Listed(n)`kw, io`pos
      ensures ok && Represents(kws) && Listed(n).kw == Some(NormalKeyword(kws[n]))
    {
      hide FileBytes, Entries, LoadedEntry, NormalKeyword;
      EntryLoads(io.bytes, kws, n);
      assert EntriesOf(globalView.kwList)[n] == Listed(n).entry;
      ok := Listed(n).GetKw(io);
    }

    /**
     * Saves keyword `n` in place. The file then has the same keywords with that one replaced, and the same bytes behind
     * them; a keyword whose name, type or size has changed is refused.
     */
    method SaveKw(n: nat, ghost kws: seq<Keyword>) returns (ok: bool)
      requires Represents(kws) && n < |kws| && n < |globalView.kwList| && io.writable
      requires Listed(n).kw.Some? ==> Keywords.Valid(Listed(n).kw.value)
      modifies io`pos, io`bytes
      ensures ok == Listed(n).AssertKw()
      ensures ok ==>
        var saved := kws[n := Listed(n).kw.value.(header8 := kws[n].header8)];
        Represents(saved) && io.bytes == FileBytes(saved) + old(io.bytes)[|FileBytes(kws)|..]
      ensures !ok ==> io.bytes == old(io.bytes) && Represents(kws)
    {
      hide FileBytes, Entries, Strip, At, DataBytes, HeaderBytes, KeywordBytes, Overwrite, Matches;
      ghost var entry, tail := Listed(n).entry, io.bytes[|FileBytes(kws)|..];
      assert EntriesOf(globalView.kwList)[n] == entry;
      assert io.bytes == FileBytes(kws) + tail;
      EntryPointsInto(io.bytes, kws, n);
      HeaderIsValid(kws[n]);
      HeaderOfKeyword(io.bytes, entry.offset, kws[n]);
      ok := Listed(n).InplaceWrite(io, kws[n].GetHeader());
      if ok { SavedInPlace(kws, n, Listed(n).kw.value, tail); }
    }
  }

  lemma HeaderOfKeyword(bytes: seq<Byte>, pos: nat, kw: Keyword)
    requires Keywords.Valid(kw) && At(bytes, pos, KeywordBytes(kw))
    ensures At(bytes, pos, Record(HeaderBytes(kw.GetHeader())))
  {
    hide HeaderBytes, DataBytes, Record;
    AtSplit(bytes, pos, Record(HeaderBytes(kw.GetHeader())), DataBytes(kw));
  }

  /** What has been found together with what is still to come is what is found in all. */
  ghost predicate Joins(found: seq<Entry>, rest: Option<seq<Entry>>, all: Option<seq<Entry>>) {
    if rest.None? then all.None? else all == Some(found + rest.value)
  }

  lemma JoinsStart(all: Option<seq<Entry>>)
    ensures EntriesOf([]) == [] && Joins([], all, all)
  {
    if all.Some? { assert [] + all.value == all.value; }
  }

  lemma JoinsStep(found: seq<Entry>, entry: Entry, rest: Option<seq<Entry>>, all: Option<seq<Entry>>)
    requires Joins(found, Prefixed(entry, rest), all)
    ensures Joins(found + [entry], rest, all)
  {
    if rest.Some? { assert found + ([entry] + rest.value) == found + [entry] + rest.value; }
  }

  lemma JoinsEnd(found: seq<Entry>, rest: Option<seq<Entry>>, all: Option<seq<Entry>>)
    requires Joins(found, rest, all)
    ensures rest == Some([]) ==> all == Some(found)
    ensures rest == None ==> all == None
  {
    assert found + [] == found;
  }

  lemma OneMoreEntry(list: seq<FileKW>, kw: FileKW)
    ensures EntriesOf(list + [kw]) == EntriesOf(list) + [kw.entry]
  {
  }

  lemma EntryFields(h: Header, offset: nat)
    ensures EntryOf(h, offset).size == h.size && EntryOf(h, offset).dataType == h.dataType
  {
  }

  lemma StepOfScan(bytes: seq<Byte>, writable: bool, pos: nat)
    ensures
      match HeaderAt(bytes, pos)
      case ReadFail => Scanned(bytes, writable, pos) == Some([])
      case UnknownType => Scanned(bytes, writable, pos) == None
      case Found(h) =>
        var next := pos + HEADER_FORTIO_SIZE + if h.size <= 0 then 0 else DataSize(h.dataType, h.size);
        Scanned(bytes, writable, pos) ==
        if next > |bytes| && !writable then Some([]) else Prefixed(EntryOf(h, pos), Scanned(bytes, writable, next))
  {
  }
}
