/** Keywords in unformatted files: a header record, and the elements in blocks. */
module Keywords {
  import opened Arithmetic
  import opened Bytes
  import opened FortranIO
  import opened KeywordTypes

  const HEADER_LENGTH := 8
  const HEADER_DATA_SIZE := 16
  const HEADER_FORTIO_SIZE := 24

  /** What a header says about its keyword; the name is padded with spaces. */
  datatype Header = Header(header8: seq<Byte>, size: int, dataType: DataType)

  ghost predicate ValidHeader(h: Header) {
    |h.header8| == HEADER_LENGTH && 0 !in h.header8 && FitsInt32(h.size) && ValidType(h.dataType)
  }

  function HeaderBytes(h: Header): (b: seq<Byte>)
    requires ValidHeader(h)
    ensures |b| == HEADER_DATA_SIZE
  {
    h.header8 + EncodeInt(h.size) + TypeName(h.dataType)
  }

  /** Reading a header may fail, or meet the name of no type. */
  datatype HeaderRead = Found(header: Header) | ReadFail | UnknownType

  /** The header at a place in a file. */
  function HeaderAt(bytes: seq<Byte>, pos: nat): HeaderRead {
    if pos + HEADER_FORTIO_SIZE > |bytes| then ReadFail else
      var size := DecodeInt(bytes[pos..pos + 4]);
      if size <= 0 || DecodeInt(bytes[pos + 20..pos + 24]) != size then ReadFail else
        match TypeFromName(bytes[pos + 16..pos + 20])
        case None => UnknownType
        case Some(t) => Found(Header(Pad(CString(bytes[pos + 4..pos + 12]), HEADER_LENGTH),
                                     DecodeInt(bytes[pos + 12..pos + 16]), t))
  }

  /** The header that stands in a file is the one that is found. */
  lemma HeaderRoundTrip(bytes: seq<Byte>, pos: nat, h: Header)
    requires ValidHeader(h) && At(bytes, pos, Record(HeaderBytes(h)))
    ensures HeaderAt(bytes, pos) == Found(h)
  {
    hide CString, EncodeInt, DecodeInt, TypeName, TypeFromName;
    var b := HeaderBytes(h);
    RecordParts(bytes, pos, b);
    AtSplit(bytes, pos + 4, h.header8 + EncodeInt(h.size), TypeName(h.dataType));
    AtSplit(bytes, pos + 4, h.header8, EncodeInt(h.size));
    IntRoundTrip(h.size);
    TypeRoundTrip(h.dataType);
    assert Pad(h.header8, HEADER_LENGTH) == h.header8;
  }

  /** Cuts a buffer into blocks; only the last one may be shorter. */
  ghost function Blocks(buffer: seq<Byte>, chunk: nat): (blocks: seq<seq<Byte>>)
    requires FitsInt32(chunk)
    ensures Framable(blocks)
    decreases |buffer|
  {
    if buffer == [] || chunk == 0 then []
    else if |buffer| <= chunk then [buffer]
    else [buffer[..chunk]] + Blocks(buffer[chunk..], chunk)
  }

  lemma {:induction false} BlocksMeaning(buffer: seq<Byte>, chunk: nat)
    requires (0 < chunk || buffer == []) && FitsInt32(chunk)
    ensures Joined(Blocks(buffer, chunk)) == buffer
    ensures buffer != [] ==> Readable(Blocks(buffer, chunk))
    decreases |buffer|
  {
    if |buffer| > chunk {
      var rest := Blocks(buffer[chunk..], chunk);
      BlocksMeaning(buffer[chunk..], chunk);
      assert ([buffer[..chunk]] + rest)[1..] == rest;
    } else if buffer != [] {
      assert Joined([buffer]) == buffer + Joined([]);
    }
  }

  lemma FirstBlock(buffer: seq<Byte>, chunk: nat)
    requires 0 < chunk && FitsInt32(chunk) && buffer != []
    ensures
      var len := if |buffer| <= chunk then |buffer| else chunk;
      && FitsInt32(len)
      && Records(Blocks(buffer, chunk)) == Record(buffer[..len]) + Records(Blocks(buffer[len..], chunk))
  {
    hide Record;
    if |buffer| <= chunk {
      assert Blocks(buffer, chunk)[1..] == [] == Blocks(buffer[|buffer|..], chunk);
      assert buffer[..|buffer|] == buffer;
    } else {
      assert Blocks(buffer, chunk)[1..] == Blocks(buffer[chunk..], chunk);
    }
  }

  /** The number of blocks of `n` elements. */
  function BlockCount(n: nat, blockSize: nat): nat
    requires blockSize > 0
  {
    n / blockSize + if n % blockSize == 0 then 0 else 1
  }

  lemma {:induction false} CountBlocks(buffer: seq<Byte>, n: nat, size: nat, blockSize: nat)
    requires 0 < size && 0 < blockSize && |buffer| == Times(n, size) && FitsInt32(Times(blockSize, size))
    requires 0 < Times(blockSize, size)
    ensures |Blocks(buffer, Times(blockSize, size))| == BlockCount(n, blockSize)
    decreases n
  {
    var chunk := Times(blockSize, size);
    if n > blockSize {
      TimesSum(blockSize, n - blockSize, size);
      TimesPositive(n - blockSize, size);
      CountBlocks(buffer[chunk..], n - blockSize, size, blockSize);
      OneBlockLess(n, blockSize);
    } else {
      TimesSum(n, blockSize - n, size);
      if n > 0 { TimesPositive(n, size); }
      if n == blockSize {
        assert n / blockSize == 1 && n % blockSize == 0;
      } else {
        assert n / blockSize == 0 && n % blockSize == n;
      }
    }
  }

  lemma OneBlockLess(n: nat, blockSize: nat)
    requires 0 < blockSize <= n
    ensures (n - blockSize) / blockSize == n / blockSize - 1
    ensures (n - blockSize) % blockSize == n % blockSize
    ensures BlockCount(n, blockSize) == BlockCount(n - blockSize, blockSize) + 1
  {
    var q, r := n / blockSize, n % blockSize;
    assert n == q * blockSize + r;
    assert q >= 1;
    assert n - blockSize == r + (q - 1) * blockSize;
    DivMod(r, q - 1, blockSize);
  }

  lemma {:induction false} TimesSum(m: nat, n: nat, size: nat)
    ensures Times(m + n, size) == Times(m, size) + Times(n, size)
  {
    if n > 0 { TimesSum(m, n - 1, size); }
  }

  lemma {:induction false} TimesPositive(n: nat, size: nat)
    requires n > 0 && size > 0
    ensures Times(n, size) > 0
  {
    if n > 1 { TimesPositive(n - 1, size); }
  }

  /** A keyword in memory. */
  datatype Keyword = Keyword(header8: seq<Byte>, dataType: DataType, data: seq<Value>) {
    function GetHeader(): Header {
      Header(header8, |data|, dataType)
    }
  }

  ghost predicate Valid(kw: Keyword) {
    && ValidHeader(kw.GetHeader()) && AllFit(kw.dataType, kw.data)
    && (kw.dataType == Mess ==> kw.data == [])
  }

  /** The bytes of one full block. */
  function Chunk(t: DataType): (c: nat)
    requires ValidType(t)
    ensures FitsInt32(c) && (t != Mess ==> 0 < c)
  {
    ChunkSize(t);
    Times(BlockSize(t), IoSize(t))
  }

  lemma ChunkSize(t: DataType)
    requires ValidType(t)
    ensures Times(BlockSize(t), IoSize(t)) == BlockSize(t) * IoSize(t) && FitsInt32(Times(BlockSize(t), IoSize(t)))
    ensures t != Mess ==> 0 < Times(BlockSize(t), IoSize(t))
  {
    TimesIsProduct(BlockSize(t), IoSize(t));
  }

  ghost function DataBytes(kw: Keyword): seq<Byte>
    requires Valid(kw)
  {
    Records(Blocks(EncodeAll(kw.dataType, kw.data), Chunk(kw.dataType)))
  }

  /** The bytes of a keyword in a file. */
  ghost function KeywordBytes(kw: Keyword): seq<Byte>
    requires Valid(kw)
  {
    Record(HeaderBytes(kw.GetHeader())) + DataBytes(kw)
  }

  /** The size of the data of a keyword in a file. */
  function DataSize(t: DataType, n: nat): nat {
    BlockCount(n, BlockSize(t)) * (4 + 4) + n * IoSize(t)
  }

  function FortioSize(t: DataType, n: nat): nat {
    HEADER_FORTIO_SIZE + DataSize(t, n)
  }

  /** A keyword takes as many bytes as its header says. */
  lemma SizeOfKeyword(kw: Keyword)
    requires Valid(kw)
    ensures |DataBytes(kw)| == DataSize(kw.dataType, |kw.data|)
    ensures |KeywordBytes(kw)| == FortioSize(kw.dataType, |kw.data|)
  {
    SizeOfData(kw);
    hide HeaderBytes, DataBytes, DataSize;
  }

  lemma SizeOfData(kw: Keyword)
    requires Valid(kw)
    ensures |DataBytes(kw)| == DataSize(kw.dataType, |kw.data|)
  {
    hide HeaderBytes, Record;
    var t, n := kw.dataType, |kw.data|;
    TimesIsProduct(n, IoSize(t));
    if n > 0 {
      ChunkSize(t);
      BlocksMeaning(EncodeAll(t, kw.data), Chunk(t));
      CountBlocks(EncodeAll(t, kw.data), n, IoSize(t), BlockSize(t));
    }
  }

  /** A keyword as it comes back from a file. */
  ghost function NormalKeyword(kw: Keyword): (r: Keyword)
    requires Valid(kw)
    ensures Valid(r) && r.GetHeader() == kw.GetHeader()
  {
    kw.(data := NormalAll(kw.dataType, kw.data))
  }

  /** Reading a keyword ends with the keyword and the place behind it, with nothing, or with an error. */
  datatype KeywordRead = Loaded(kw: Keyword, end: nat) | Missing | Refused

  /** The keyword at a place in a file. */
  ghost function KeywordAt(bytes: seq<Byte>, pos: nat): KeywordRead {
    match HeaderAt(bytes, pos)
    case ReadFail => Missing
    case UnknownType => Refused
    case Found(h) =>
      if h.size < 0 then Refused
      else if h.size == 0 then Loaded(Keyword(h.header8, h.dataType, []), pos + HEADER_FORTIO_SIZE)
      else match Segments(bytes, pos + HEADER_FORTIO_SIZE, Times(h.size, IoSize(h.dataType)))
        case None => Missing
        case Some(segments) =>
          SegmentsStandThere(bytes, pos + HEADER_FORTIO_SIZE, Times(h.size, IoSize(h.dataType)));
          Loaded(Keyword(h.header8, h.dataType, DecodeAll(h.dataType, h.size, Joined(segments))),
                 pos + HEADER_FORTIO_SIZE + |Records(segments)|)
  }

  /** A keyword that stands in a file is read back, up to the padding of strings, and exactly its bytes are consumed. */
  lemma KeywordRoundTrip(bytes: seq<Byte>, pos: nat, kw: Keyword)
    requires Valid(kw) && At(bytes, pos, KeywordBytes(kw))
    ensures KeywordAt(bytes, pos) == Loaded(NormalKeyword(kw), pos + FortioSize(kw.dataType, |kw.data|))
    ensures KeywordBytes(NormalKeyword(kw)) == KeywordBytes(kw)
  {
    hide HeaderBytes, Record, HeaderAt, EncodeAll, DecodeAll, Blocks, Joined, Records, Segments;
    var t, n := kw.dataType, |kw.data|;
    AtSplit(bytes, pos, Record(HeaderBytes(kw.GetHeader())), DataBytes(kw));
    HeaderRoundTrip(bytes, pos, kw.GetHeader());
    DataRoundTrip(t, kw.data);
    SizeOfKeyword(kw);
    if n > 0 {
      ChunkSize(t);
      NoMoreThanNothing(t, kw.data);
      var blocks := Blocks(EncodeAll(t, kw.data), Chunk(t));
      BlocksMeaning(EncodeAll(t, kw.data), Chunk(t));
      SegmentsOfRecords(bytes, pos + HEADER_FORTIO_SIZE, blocks);
    }
  }

  lemma NoMoreThanNothing(t: DataType, data: seq<Value>)
    requires AllFit(t, data) && data != [] && ValidType(t) && t != Mess
    ensures EncodeAll(t, data) != []
  {
    TimesPositive(|data|, IoSize(t));
  }
}
