/** Reading and writing keywords through a file that is open. */
module KeywordIO {
  import opened Prelude
  import opened Arithmetic
  import opened Bytes
  import opened FortranIO
  import opened KeywordTypes
  import opened Keywords

  /** Writes the header record of a keyword. */
  method FwriteHeader(kw: Keyword, io: FortIO)
    requires ValidHeader(kw.GetHeader())
    modifies io`pos, io`bytes
    ensures io.bytes == Overwrite(old(io.bytes), old(io.pos), Record(HeaderBytes(kw.GetHeader())))
    ensures io.pos == old(io.pos) + HEADER_FORTIO_SIZE
  {
    hide Overwrite, EncodeInt, TypeName;
    ghost var bytes, pos := io.bytes, io.pos;
    var size := EncodeInt(|kw.data|);
    var name := TypeName(kw.dataType);
    io.Fwrite(EncodeInt(HEADER_DATA_SIZE));
    io.Fwrite(kw.header8);
    io.Fwrite(size);
    io.Fwrite(name);
    io.Fwrite(EncodeInt(HEADER_DATA_SIZE));
    ghost var start := EncodeInt(HEADER_DATA_SIZE);
    OverwriteTwice(bytes, pos, start, kw.header8);
    OverwriteTwice(bytes, pos, start + kw.header8, size);
    OverwriteTwice(bytes, pos, start + kw.header8 + size, name);
    OverwriteTwice(bytes, pos, start + kw.header8 + size + name, start);
    assert start + kw.header8 + size + name + start == start + (kw.header8 + size + name) + start;
  }

  /** Where block `b` ends. */
  function BlockEnd(n: nat, b: nat, blockSize: nat): int {
    if (b + 1) * blockSize <= n then (b + 1) * blockSize else n
  }

  /** A block starts behind whole blocks, and it is full unless it is the last one. */
  lemma BlockElements(n: nat, b: nat, blockSize: nat)
    requires 0 < blockSize && b < BlockCount(n, blockSize)
    ensures 0 <= b * blockSize < BlockEnd(n, b, blockSize) <= n
    ensures BlockEnd(n, b, blockSize) - b * blockSize <= blockSize
    ensures b + 1 < BlockCount(n, blockSize) ==>
            BlockEnd(n, b, blockSize) == (b + 1) * blockSize == b * blockSize + blockSize < n
    ensures b + 1 == BlockCount(n, blockSize) ==> BlockEnd(n, b, blockSize) == n
  {
    WholeBlocks(n, b, blockSize);
    WholeBlocks(n, b + 1, blockSize);
    OneMore(b, blockSize);
    hide BlockCount;
  }

  lemma OneMore(b: nat, d: nat)
    ensures (b + 1) * d == b * d + d && 0 <= b * d
  {
  }

  /** So many whole blocks leave something over just when they are not all blocks. */
  lemma WholeBlocks(n: nat, b: nat, blockSize: nat)
    requires 0 < blockSize
    ensures b < BlockCount(n, blockSize) <==> b * blockSize < n
  {
    var q, r := Split(n, blockSize).0, Split(n, blockSize).1;
    DivMod(r, q, blockSize);
    if b <= q { ProductGrows(b, q, blockSize); } else { ProductGrows(q + 1, b, blockSize); OneMore(q, blockSize); }
    if b < q { ProductGrows(b + 1, q, blockSize); OneMore(b, blockSize); }
    hide Split;
  }

  /** Where the bytes of block `b` start in the buffer, and how many they are. */
  function BlockStart(b: nat, size: nat, blockSize: nat): int {
    b * blockSize * size
  }

  function BlockLength(n: nat, b: nat, size: nat, blockSize: nat): int {
    (BlockEnd(n, b, blockSize) - b * blockSize) * size
  }

  /** The bytes of block `b`: it has the full size, or what is left if that is less. */
  lemma BlockBytes(n: nat, b: nat, size: nat, blockSize: nat)
    requires 0 < blockSize && 0 < size && b < BlockCount(n, blockSize)
    ensures
      var from, length := BlockStart(b, size, blockSize), BlockLength(n, b, size, blockSize);
      && 0 <= from < n * size && 0 < length && from + length <= n * size
      && length == (if n * size - from <= blockSize * size then n * size - from else blockSize * size)
      && (b + 1 < BlockCount(n, blockSize) ==> from + length == BlockStart(b + 1, size, blockSize))
      && (b + 1 == BlockCount(n, blockSize) ==> from + length == n * size)
  {
    BlockElements(n, b, blockSize);
    hide BlockEnd, BlockCount;
    BytesBetween(b * blockSize, BlockEnd(n, b, blockSize), n, size, blockSize);
  }

  lemma BytesBetween(from: nat, to: int, n: nat, size: nat, blockSize: nat)
    requires from < to <= n && to - from <= blockSize && 0 < size
    ensures 0 <= from * size < n * size && 0 < (to - from) * size &&
            from * size + (to - from) * size == to * size <= n * size
    ensures (to - from) * size <= blockSize * size
    ensures to < n ==> to * size < n * size
  {
    ProductGrows(from, to, size);
    ProductGrows(to, n, size);
    ProductGrows(to - from, blockSize, size);
    ProductGrows(1, to - from, size);
    if to < n { ProductGrows(to + 1, n, size); }
  }

  lemma BlockIsFull(t: DataType, n: nat, b: nat)
    requires ValidType(t) && t != Mess && b < BlockCount(n, BlockSize(t))
    ensures
      var from, length, all := BlockStart(b, IoSize(t), BlockSize(t)), BlockLength(n, b, IoSize(t), BlockSize(t)),
        Times(n, IoSize(t));
      && 0 <= from < all && 0 < length && from + length <= all
      && length == (if all - from <= Chunk(t) then all - from else Chunk(t))
      && (b + 1 < BlockCount(n, BlockSize(t)) ==> from + length == BlockStart(b + 1, IoSize(t), BlockSize(t)))
      && (b + 1 == BlockCount(n, BlockSize(t)) ==> from + length == all)
  {
    assert IoSize(t) > 0 && BlockSize(t) > 0;
    hide Times, BlockSize, IoSize, BlockCount, BlockEnd, BlockStart, BlockLength;
    BlockBytes(n, b, IoSize(t), BlockSize(t));
    TimesIsProduct(n, IoSize(t));
    TimesIsProduct(BlockSize(t), IoSize(t));
  }

  /** The bytes of block `b` are the first block of what is left of the buffer. */
  lemma NextBlock(t: DataType, n: nat, b: nat, buffer: seq<Byte>)
    requires ValidType(t) && t != Mess && |buffer| == Times(n, IoSize(t)) && b < BlockCount(n, BlockSize(t))
    ensures
      var from, length := BlockStart(b, IoSize(t), BlockSize(t)), BlockLength(n, b, IoSize(t), BlockSize(t));
      && 0 <= from && 0 <= length && from + length <= |buffer| && FitsInt32(length)
      && (b + 1 < BlockCount(n, BlockSize(t)) ==> from + length == BlockStart(b + 1, IoSize(t), BlockSize(t)))
      && (b + 1 == BlockCount(n, BlockSize(t)) ==> from + length == |buffer|)
      && Records(Blocks(buffer[from..], Chunk(t))) ==
         Record(buffer[from..from + length]) + Records(Blocks(buffer[from + length..], Chunk(t)))
  {
    hide Blocks, Records, Record, BlockStart, BlockLength, BlockCount, Times, IoSize, BlockSize;
    BlockIsFull(t, n, b);
    ChunkSize(t);
    RestOfBuffer(buffer, Chunk(t), BlockStart(b, IoSize(t), BlockSize(t)), BlockLength(n, b, IoSize(t), BlockSize(t)));
  }

  lemma RestOfBuffer(buffer: seq<Byte>, chunk: nat, from: int, length: int)
    requires 0 < chunk && FitsInt32(chunk) && 0 <= from < |buffer|
    requires length == if |buffer| - from <= chunk then |buffer| - from else chunk
    ensures FitsInt32(length)
    ensures Records(Blocks(buffer[from..], chunk)) ==
            Record(buffer[from..from + length]) + Records(Blocks(buffer[from + length..], chunk))
  {
    hide Blocks, Records, Record;
    var rest := buffer[from..];
    FirstBlock(rest, chunk);
    assert rest[..length] == buffer[from..from + length];
    assert rest[length..] == buffer[from + length..];
  }

  /** A file at a position after some of `all` has been written from `start` on, and `rest` is still to come. */
  ghost predicate Continues(was: seq<Byte>, start: nat, now: seq<Byte>, pos: nat, rest: seq<Byte>, all: seq<Byte>) {
    exists written :: now == Overwrite(was, start, written) && pos == start + |written| && written + rest == all
  }

  lemma ContinueStarts(was: seq<Byte>, start: nat, all: seq<Byte>)
    ensures Continues(was, start, was, start, all, all)
  {
    assert was == Overwrite(was, start, []) && [] + all == all;
  }

  lemma ContinueStep(was: seq<Byte>, start: nat, now: seq<Byte>, pos: nat, record: seq<Byte>, rest: seq<Byte>,
                     all: seq<Byte>)
    requires Continues(was, start, now, pos, record + rest, all)
    ensures Continues(was, start, Overwrite(now, pos, record), pos + |record|, rest, all)
  {
    hide Overwrite;
    var written :| now == Overwrite(was, start, written) && pos == start + |written| &&
      written + (record + rest) == all;
    OverwriteTwice(was, start, written, record);
    SumOfThree(written, record, rest);
    var longer := written + record;
    assert Overwrite(now, pos, record) == Overwrite(was, start, longer);
  }

  lemma ContinueEnds(was: seq<Byte>, start: nat, now: seq<Byte>, pos: nat, all: seq<Byte>)
    requires Continues(was, start, now, pos, [], all)
    ensures now == Overwrite(was, start, all) && pos == start + |all|
  {
    hide Overwrite;
    var written :| now == Overwrite(was, start, written) && pos == start + |written| && written + [] == all;
    assert written + [] == written;
  }

  /** A file at a position after some blocks of a keyword have been written, up to byte `done` of the buffer. */
  ghost predicate WrittenTo(kw: Keyword, buffer: seq<Byte>, done: int, was: seq<Byte>, start: nat, now: seq<Byte>,
                            pos: nat)
    requires Keywords.Valid(kw)
  {
    && 0 <= done <= |buffer|
    && Continues(was, start, now, pos, Records(Blocks(buffer[done..], Chunk(kw.dataType))), DataBytes(kw))
  }

  lemma WriteStarts(kw: Keyword, buffer: seq<Byte>, was: seq<Byte>, start: nat)
    requires Keywords.Valid(kw) && buffer == EncodeAll(kw.dataType, kw.data)
    ensures BlockSize(kw.dataType) > 0 && |buffer| == Times(|kw.data|, IoSize(kw.dataType))
    ensures WrittenTo(kw, buffer, 0, was, start, was, start)
    ensures BlockStart(0, IoSize(kw.dataType), BlockSize(kw.dataType)) == 0
    ensures BlockCount(|kw.data|, BlockSize(kw.dataType)) == 0 ==> buffer == []
    ensures BlockCount(|kw.data|, BlockSize(kw.dataType)) > 0 ==> kw.dataType != Mess
  {
    assert buffer[0..] == buffer;
    NoBlocks(|kw.data|, BlockSize(kw.dataType));
    hide Overwrite, EncodeAll, Records, Blocks, Continues, Joined, HeaderBytes, BlockCount;
    ContinueStarts(was, start, DataBytes(kw));
  }

  lemma NoBlocks(n: nat, blockSize: nat)
    requires blockSize > 0
    ensures BlockCount(n, blockSize) == 0 <==> n == 0
  {
    if n % blockSize == 0 && n / blockSize == 0 {
      assert n == blockSize * (n / blockSize) + n % blockSize;
    }
  }

  /** Writing block `b` goes on from where the blocks before it ended. */
  lemma WriteStep(kw: Keyword, buffer: seq<Byte>, b: nat, done: int, was: seq<Byte>, start: nat, now: seq<Byte>,
                  pos: nat)
    requires Keywords.Valid(kw) && kw.dataType != Mess && b < BlockCount(|kw.data|, BlockSize(kw.dataType))
    requires |buffer| == Times(|kw.data|, IoSize(kw.dataType)) &&
             done == BlockStart(b, IoSize(kw.dataType), BlockSize(kw.dataType))
    requires WrittenTo(kw, buffer, done, was, start, now, pos)
    ensures
      var length := BlockLength(|kw.data|, b, IoSize(kw.dataType), BlockSize(kw.dataType));
      && 0 <= length && done + length <= |buffer| && FitsInt32(length)
      && (b + 1 < BlockCount(|kw.data|, BlockSize(kw.dataType)) ==>
          done + length == BlockStart(b + 1, IoSize(kw.dataType), BlockSize(kw.dataType)))
      && (b + 1 == BlockCount(|kw.data|, BlockSize(kw.dataType)) ==> done + length == |buffer|)
      && var record := Record(buffer[done..done + length]);
         WrittenTo(kw, buffer, done + length, was, start, Overwrite(now, pos, record), pos + |record|)
  {
    hide Overwrite, Records, Blocks, Record, BlockStart, BlockLength, BlockCount, BlockSize, IoSize, Times, DataBytes;
    hide Chunk;
    hide Continues, AllFit;
    NextBlock(kw.dataType, |kw.data|, b, buffer);
    ghost var length := BlockLength(|kw.data|, b, IoSize(kw.dataType), BlockSize(kw.dataType));
    ContinueStep(was, start, now, pos, Record(buffer[done..done + length]),
                 Records(Blocks(buffer[done + length..], Chunk(kw.dataType))), DataBytes(kw));
  }

  lemma WriteEnds(kw: Keyword, buffer: seq<Byte>, was: seq<Byte>, start: nat, now: seq<Byte>, pos: nat)
    requires Keywords.Valid(kw) && WrittenTo(kw, buffer, |buffer|, was, start, now, pos)
    ensures now == Overwrite(was, start, DataBytes(kw)) && pos == start + |DataBytes(kw)|
  {
    assert buffer[|buffer|..] == [];
    ContinueEnds(was, start, now, pos, DataBytes(kw));
  }

  /** Writes the elements of a keyword, block by block. */
  method FwriteData(kw: Keyword, io: FortIO)
    requires Keywords.Valid(kw)
    modifies io`pos, io`bytes
    ensures io.bytes == Overwrite(old(io.bytes), old(io.pos), DataBytes(kw))
    ensures io.pos == old(io.pos) + |DataBytes(kw)|
  {
    hide WrittenTo, Overwrite, BlockSize, IoSize, BlockCount, Times, Record, BlockStart, BlockLength, DataBytes;
    var buffer := AllocOutputBuffer(kw.dataType, kw.data);
    WriteStarts(kw, buffer, io.bytes, io.pos);
    var size, blockSize := IoSize(kw.dataType), BlockSize(kw.dataType);
    var blocks := BlockCount(|kw.data|, blockSize);
    for b := 0 to blocks
      invariant b < blocks ==> WrittenTo(kw, buffer, BlockStart(b, size, blockSize), old(io.bytes), old(io.pos),
                io.bytes, io.pos)
      invariant b == blocks ==> WrittenTo(kw, buffer, |buffer|, old(io.bytes), old(io.pos), io.bytes, io.pos)
    {
      var start, recordSize := BlockStart(b, size, blockSize), BlockLength(|kw.data|, b, size, blockSize);
      WriteStep(kw, buffer, b, start, old(io.bytes), old(io.pos), io.bytes, io.pos);
      StartsInBuffer(kw, buffer, start, old(io.bytes), old(io.pos), io.bytes, io.pos);
      io.FwriteRecord(buffer[start..start + recordSize]);
    }
    WriteEnds(kw, buffer, old(io.bytes), old(io.pos), io.bytes, io.pos);
  }

  lemma StartsInBuffer(kw: Keyword, buffer: seq<Byte>, done: int, was: seq<Byte>, start: nat, now: seq<Byte>, pos: nat)
    requires Keywords.Valid(kw) && WrittenTo(kw, buffer, done, was, start, now, pos)
    ensures 0 <= done <= |buffer|
  {
  }

  /** Writes a keyword. */
  method FwriteKeyword(kw: Keyword, io: FortIO)
    requires Keywords.Valid(kw)
    modifies io`pos, io`bytes
    ensures io.bytes == Overwrite(old(io.bytes), old(io.pos), KeywordBytes(kw))
    ensures io.pos == old(io.pos) + |KeywordBytes(kw)|
  {
    hide Overwrite, Record, HeaderBytes, DataBytes;
    FwriteHeader(kw, io);
    FwriteData(kw, io);
    OverwriteTwice(old(io.bytes), old(io.pos), Record(HeaderBytes(kw.GetHeader())), DataBytes(kw));
  }

  /** Reads the header record of a keyword. */
  method FreadHeader(io: FortIO) returns (r: HeaderRead)
    modifies io`pos
    ensures r == HeaderAt(io.bytes, old(io.pos))
    ensures r.Found? ==> io.pos == old(io.pos) + HEADER_FORTIO_SIZE <= |io.bytes|
  {
    hide TypeFromName, DecodeInt, Pad, CString;
    ghost var bytes, pos := io.bytes, io.pos;
    var recordSize := io.InitRead();
    if recordSize <= 0 { return ReadFail; }
    var buffer := io.Fread(HEADER_DATA_SIZE);
    if |buffer| != HEADER_DATA_SIZE { return ReadFail; }
    var complete := io.CompleteRead(recordSize);
    if !complete { return ReadFail; }
    HeaderFields(bytes, pos, buffer);
    var dataType := TypeFromName(buffer[12..]);
    if dataType.None? { return UnknownType; }
    r := Found(Header(Pad(CString(buffer[..8]), HEADER_LENGTH), DecodeInt(buffer[8..12]), dataType.value));
  }

  lemma HeaderFields(bytes: seq<Byte>, pos: nat, buffer: seq<Byte>)
    requires |buffer| == HEADER_DATA_SIZE && At(bytes, pos + 4, buffer)
    ensures buffer[..8] == bytes[pos + 4..pos + 12] && buffer[8..12] == bytes[pos + 12..pos + 16] &&
            buffer[12..] == bytes[pos + 16..pos + 20]
  {
  }

  /** Reads the elements of a keyword; a keyword without elements has no data in the file. */
  method FreadData(h: Header, io: FortIO) returns (r: Option<seq<Value>>)
    requires h.size >= 0
    modifies io`pos
    ensures h.size == 0 ==> r == Some([]) && io.pos == old(io.pos)
    ensures h.size > 0 ==>
      match Segments(io.bytes, old(io.pos), Times(h.size, IoSize(h.dataType)))
      case None => r == None
      case Some(segments) =>
        && Framable(segments) && |Joined(segments)| == Times(h.size, IoSize(h.dataType))
        && r == Some(DecodeAll(h.dataType, h.size, Joined(segments))) && io.pos == old(io.pos) + |Records(segments)|
  {
    hide Segments, Records, Joined, DecodeAll, Times;
    if h.size == 0 { return Some([]); }
    TimesIsProduct(h.size, IoSize(h.dataType));
    ghost var segments := Segments(io.bytes, io.pos, Times(h.size, IoSize(h.dataType)));
    if segments.Some? { SegmentsStandThere(io.bytes, io.pos, Times(h.size, IoSize(h.dataType))); }
    var ok, buffer := io.FreadBuffer(h.size * IoSize(h.dataType));
    if !ok { return None; }
    var data := LoadFromInputBuffer(h.dataType, h.size, buffer);
    r := Some(data);
  }

  /** Reads a keyword. */
  method FreadAlloc(io: FortIO) returns (r: KeywordRead)
    modifies io`pos
    ensures r == KeywordAt(io.bytes, old(io.pos))
    ensures r.Loaded? ==> io.pos == r.end
  {
    hide HeaderAt, Segments, Records, Joined, DecodeAll, Times;
    var header := FreadHeader(io);
    match header {
      case ReadFail => return Missing;
      case UnknownType => return Refused;
      case Found(h) =>
        if h.size < 0 { return Refused; }
        var data := FreadData(h, io);
        if data.None? { return Missing; }
        r := Loaded(Keyword(h.header8, h.dataType, data.value), io.pos);
    }
  }

  lemma SkippedSize(t: DataType, n: nat, blockCount: int)
    requires blockCount == BlockCount(n, BlockSize(t))
    ensures 4 * blockCount + 4 * blockCount + IoSize(t) * n == DataSize(t, n)
  {
    hide BlockCount, IoSize, BlockSize;
  }

  /** Skips the elements of a keyword. A file that is only read is not left by this. */
  method FskipData(t: DataType, elementCount: int, io: FortIO) returns (ok: bool)
    modifies io`pos
    ensures elementCount <= 0 ==> ok && io.pos == old(io.pos)
    ensures elementCount > 0 ==>
      var target := old(io.pos) + DataSize(t, elementCount);
      (ok <==> io.writable || target <= io.readSize) && io.pos == if ok then target else old(io.pos)
  {
    if elementCount <= 0 { return true; }
    var blockCount := elementCount / BlockSize(t) + if elementCount % BlockSize(t) != 0 then 1 else 0;
    assert blockCount == BlockCount(elementCount, BlockSize(t));
    SkippedSize(t, elementCount, blockCount);
    hide DataSize, BlockCount, IoSize, BlockSize;
    ok := io.DataFskip(IoSize(t), elementCount, blockCount);
  }

  /** Skips the header record of a keyword. */
  method FskipHeader(io: FortIO)
    modifies io`pos
    ensures forall h: Header ::
            ValidHeader(h) && At(io.bytes, old(io.pos), Record(HeaderBytes(h))) &&
              (io.writable || |io.bytes| <= io.readSize) ==>
              io.pos == old(io.pos) + HEADER_FORTIO_SIZE
  {
    hide At, HeaderBytes;
    var size := io.FskipRecord();
    forall h: Header | ValidHeader(h) && At(io.bytes, old(io.pos), Record(HeaderBytes(h))) &&
      (io.writable || |io.bytes| <= io.readSize)
      ensures io.pos == old(io.pos) + HEADER_FORTIO_SIZE
    {
      var payload := HeaderBytes(h);
      assert FitsInt32(|payload|) && At(io.bytes, old(io.pos), Record(payload));
    }
  }
}
