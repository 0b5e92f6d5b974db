/**
 * The bytes of a keyword in a file, one by one: what stands where, told by weights of bytes and by numbers of
 * characters and not by the functions that write and read them.
 */
module FileLayout {
  import opened Prelude
  import opened Bytes
  import opened FortranIO
  import opened KeywordTypes
  import opened Keywords
  import opened RandomAccess

  /**
   * Four bytes that give a number, the first of them with the largest weight; a negative one is given modulo 2 ^ 32.
   */
  predicate Weighs(b: seq<Byte>, at: nat, n: int) {
    && at + 4 <= |b|
    && 16777216 * (b[at] as int) + 65536 * (b[at + 1] as int) + 256 * (b[at + 2] as int) + b[at + 3] as int ==
       if n < 0 then n + 4294967296 else n
  }

  /** The letters of a type: INTE, REAL, DOUB, LOGI, CHAR, MESS, or C and three digits. */
  predicate SpelledOut(t: DataType, b: seq<Byte>) {
    match t
    case Inte => b == [73, 78, 84, 69]
    case Real => b == [82, 69, 65, 76]
    case Doub => b == [68, 79, 85, 66]
    case Logi => b == [76, 79, 71, 73]
    case Char => b == [67, 72, 65, 82]
    case Mess => b == [77, 69, 83, 83]
    case Str(n) =>
      && |b| == 4 && b[0] == 67 && (forall k :: 1 <= k < 4 ==> 48 <= b[k] <= 57)
      && 100 * (b[1] as int - 48) + 10 * (b[2] as int - 48) + (b[3] as int - 48) == n
  }

  /** The bytes of an element, and how many elements share a record. */
  function Width(t: DataType): nat {
    match t
    case Inte => 4
    case Real => 4
    case Doub => 8
    case Logi => 4
    case Char => 8
    case Mess => 0
    case Str(n) => n
  }

  function PerRecord(t: DataType): nat {
    if t.Char? || t.Mess? || t.Str? then 105 else 1000
  }

  /**
   * The bytes of an element: those of a number turned round, four equal bytes for a truth value, a string with spaces.
   */
  predicate ElementBytes(t: DataType, v: Value, b: seq<Byte>) {
    match v
    case Number(native) => |b| == |native| && forall k :: 0 <= k < |b| ==> b[k] == native[|b| - 1 - k]
    case Logical(on) => b == if on then [255, 255, 255, 255] else [0, 0, 0, 0]
    case Text(chars) => |b| == Width(t) && forall k :: 0 <= k < |b| ==> b[k] == if k < |chars| then chars[k] else 32
  }

  lemma IntWeighs(n: int)
    requires FitsInt32(n)
    ensures Weighs(EncodeInt(n), 0, n)
  {
    IntBytes(n);
    hide EncodeInt;
  }

  lemma WeighsInside(b: seq<Byte>, at: nat, n: int)
    requires FitsInt32(n) && At(b, at, EncodeInt(n))
    ensures Weighs(b, at, n)
  {
    IntWeighs(n);
    hide EncodeInt;
    var part := b[at..at + 4];
    assert part[0] == b[at] && part[1] == b[at + 1] && part[2] == b[at + 2] && part[3] == b[at + 3];
  }

  lemma NameIsSpelledOut(t: DataType)
    requires ValidType(t)
    ensures SpelledOut(t, TypeName(t))
  {
  }

  lemma Sizes(t: DataType)
    ensures IoSize(t) == Width(t) && BlockSize(t) == PerRecord(t)
  {
  }

  lemma ElementIsSpelledOut(t: DataType, v: Value)
    requires Fits(t, v)
    ensures ElementBytes(t, v, Encode(t, v))
  {
  }

  /**
   * The 24 bytes in front of every keyword: a record of 16 bytes, with the name, the number of elements and the type.
   */
  lemma HeaderLayout(kw: Keyword)
    requires Keywords.Valid(kw)
    ensures
      var b := KeywordBytes(kw);
      && |b| >= 24 && b[..4] == [0, 0, 0, 16] && b[4..12] == kw.header8 && Weighs(b, 12, |kw.data|)
      && SpelledOut(kw.dataType, b[16..20]) && b[20..24] == [0, 0, 0, 16]
  {
    var b, h := KeywordBytes(kw), kw.GetHeader();
    hide EncodeInt, TypeName, DataBytes;
    assert EncodeInt(16) == [0, 0, 0, 16] by { SixteenWritten(); }
    NameIsSpelledOut(h.dataType);
    assert At(b, 12, EncodeInt(h.size)) && b[16..20] == TypeName(h.dataType);
    WeighsInside(b, 12, h.size);
  }

  lemma SixteenWritten()
    ensures EncodeInt(16) == [0, 0, 0, 16]
  {
  }

  /** Record `r` of a buffer that is cut into blocks. */
  lemma {:induction false} RecordInBlocks(buffer: seq<Byte>, chunk: nat, r: nat)
    requires 0 < chunk && FitsInt32(chunk) && Times(r, chunk) < |buffer|
    ensures
      var from := Times(r, chunk);
      var to := if from + chunk <= |buffer| then from + chunk else |buffer|;
      && FitsInt32(to - from)
      && At(Records(Blocks(buffer, chunk)), Times(r, chunk + FRAME), Record(buffer[from..to]))
    decreases r
  {
    hide Record, Records, Blocks, At;
    FirstBlock(buffer, chunk);
    if r == 0 {
      var length := if |buffer| <= chunk then |buffer| else chunk;
      FrontStands(Record(buffer[..length]), Records(Blocks(buffer[length..], chunk)));
      assert buffer[0..length] == buffer[..length];
    } else {
      var rest, from := buffer[chunk..], Times(r - 1, chunk);
      RecordInBlocks(rest, chunk, r - 1);
      var to := if from + chunk <= |rest| then from + chunk else |rest|;
      LaterPart(buffer, chunk, from, to);
      SizeOfRecord(buffer[..chunk]);
      ShiftedAt(Record(buffer[..chunk]), Records(Blocks(rest, chunk)), Times(r - 1, chunk + FRAME),
                Record(rest[from..to]));
    }
  }

  lemma LaterPart(buffer: seq<Byte>, cut: nat, from: nat, to: nat)
    requires cut <= |buffer| && from <= to <= |buffer| - cut
    ensures buffer[cut..][from..to] == buffer[from + cut..to + cut]
  {
  }

  lemma FrontStands(a: seq<Byte>, b: seq<Byte>)
    ensures At(a + b, 0, a)
  {
  }

  lemma SizeOfRecord(payload: seq<Byte>)
    requires FitsInt32(|payload|)
    ensures |Record(payload)| == |payload| + FRAME
  {
  }

  /** Where record `r` starts, with `m` elements of `w` bytes in a record, and how long its payload is. */
  function RecordStart(r: nat, m: nat, w: nat): nat {
    24 + r * (m * w + 8)
  }

  function RecordLength(r: nat, m: nat, n: nat, w: nat): nat
    requires HasRecord(r, m, n)
  {
    if r * m + m <= n then m * w else (n - r * m) * w
  }

  /** There are elements for record `r`. */
  predicate HasRecord(r: nat, m: nat, n: nat) {
    r * m < n
  }

  lemma PlaceByTimes(r: nat, m: nat, n: nat, w: nat)
    requires HasRecord(r, m, n)
    ensures Times(r, m) < n && RecordStart(r, m, w) == 24 + Times(r, Times(m, w) + FRAME)
    ensures RecordLength(r, m, n, w) == if Times(r, m) + m <= n then Times(m, w) else Times(n - Times(r, m), w)
  {
    hide Times;
    TimesIsProduct(r, m);
    TimesIsProduct(m, w);
    TimesIsProduct(n - Times(r, m), w);
    TimesIsProduct(r, Times(m, w) + FRAME);
  }

  lemma {:induction false} TimesTimes(r: nat, m: nat, w: nat)
    ensures Times(r, Times(m, w)) == Times(Times(r, m), w)
  {
    if r > 0 {
      TimesTimes(r - 1, m, w);
      TimesSum(Times(r - 1, m), m, w);
    }
  }

  /** The place of record `r` in a buffer of `n` elements: where it begins, and how much is left from there. */
  lemma RecordPlace(r: nat, m: nat, n: nat, w: nat)
    requires Times(r, m) < n && 0 < w
    ensures
      var from, chunk, all := Times(r, Times(m, w)), Times(m, w), Times(n, w);
      && from < all
      && (if Times(r, m) + m <= n then from + chunk <= all else from + chunk > all)
      && all - from == Times(n - Times(r, m), w)
  {
    hide Times;
    var a := Times(r, m);
    TimesTimes(r, m, w);
    TimesSum(a, n - a, w);
    TimesPositive(n - a, w);
    TimesSum(a, m, w);
    if a + m <= n {
      TimesSum(a + m, n - a - m, w);
    } else {
      TimesSum(n, a + m - n, w);
      TimesPositive(a + m - n, w);
    }
  }

  /** Record `r` of a buffer of `n` elements of `w` bytes, which is cut after every `m` elements. */
  lemma RecordOfBuffer(buffer: seq<Byte>, r: nat, m: nat, n: nat, w: nat) returns (payload: seq<Byte>)
    requires |buffer| == Times(n, w) && Times(r, m) < n && 0 < w && 0 < Times(m, w) && FitsInt32(Times(m, w))
    ensures |payload| == if Times(r, m) + m <= n then Times(m, w) else Times(n - Times(r, m), w)
    ensures FitsInt32(|payload|)
    ensures At(Records(Blocks(buffer, Times(m, w))), Times(r, Times(m, w) + FRAME), Record(payload))
  {
    hide Times, Record, Records, Blocks, At;
    RecordPlace(r, m, n, w);
    RecordInBlocks(buffer, Times(m, w), r);
    var from := Times(r, Times(m, w));
    if from + Times(m, w) <= |buffer| {
      payload := buffer[from..from + Times(m, w)];
    } else {
      payload := buffer[from..|buffer|];
    }
  }

  /** The record number `r` of the data of a keyword. */
  lemma RecordOf(kw: Keyword, r: nat, m: nat, w: nat) returns (payload: seq<Byte>)
    requires Keywords.Valid(kw) && m == PerRecord(kw.dataType) && w == Width(kw.dataType) && Times(r, m) < |kw.data|
    ensures |payload| == if Times(r, m) + m <= |kw.data| then Times(m, w) else Times(|kw.data| - Times(r, m), w)
    ensures FitsInt32(|payload|) && At(DataBytes(kw), Times(r, Times(m, w) + FRAME), Record(payload))
  {
    hide *;
    FrameIsEight();
    WidthIsPositive(kw);
    DataIsCut(kw, m, w);
    payload := RecordOfBuffer(EncodeAll(kw.dataType, kw.data), r, m, |kw.data|, w);
  }

  /** The data of a keyword are its elements, cut into records. */
  lemma DataIsCut(kw: Keyword, m: nat, w: nat)
    requires Keywords.Valid(kw) && m == PerRecord(kw.dataType) && w == Width(kw.dataType)
    ensures AllFit(kw.dataType, kw.data) && |EncodeAll(kw.dataType, kw.data)| == Times(|kw.data|, w)
    ensures FitsInt32(Times(m, w)) && (kw.data != [] ==> 0 < Times(m, w) && 0 < w)
    ensures DataBytes(kw) == Records(Blocks(EncodeAll(kw.dataType, kw.data), Times(m, w)))
  {
    hide IoSize, BlockSize, Times, EncodeAll, Records, Blocks;
    Sizes(kw.dataType);
    ChunkSize(kw.dataType);
    if kw.data != [] { WidthIsPositive(kw); }
  }

  lemma FrameIsEight()
    ensures FRAME == 8
  {
  }

  lemma WidthIsPositive(kw: Keyword)
    requires Keywords.Valid(kw) && kw.data != []
    ensures 0 < Width(kw.dataType) && 0 < Chunk(kw.dataType)
  {
    ChunkSize(kw.dataType);
  }

  /** Each record of the data is framed by its length: of 1000 elements, or 105 strings, or what is left. */
  lemma RecordLayout(kw: Keyword, r: nat)
    requires Keywords.Valid(kw) && HasRecord(r, PerRecord(kw.dataType), |kw.data|)
    ensures
      var b, m, w := KeywordBytes(kw), PerRecord(kw.dataType), Width(kw.dataType);
      var at, length := RecordStart(r, m, w), RecordLength(r, m, |kw.data|, w);
      Weighs(b, at, length) && Weighs(b, at + 4 + length, length)
  {
    hide *;
    FrameIsEight();
    var m, w := PerRecord(kw.dataType), Width(kw.dataType);
    PlaceByTimes(r, m, |kw.data|, w);
    var payload := RecordOf(kw, r, m, w);
    FramesWeigh(kw, Times(r, Times(m, w) + FRAME), payload, RecordStart(r, m, w), RecordLength(r, m, |kw.data|, w));
  }

  /** What stands in the data stands 24 bytes further on in the keyword. */
  lemma HeaderInFront(kw: Keyword, at: nat, chunk: seq<Byte>)
    requires Keywords.Valid(kw) && At(DataBytes(kw), at, chunk)
    ensures At(KeywordBytes(kw), 24 + at, chunk)
  {
    hide At, Record, HeaderBytes, DataBytes;
    SizeOfRecord(HeaderBytes(kw.GetHeader()));
    ShiftedAt(Record(HeaderBytes(kw.GetHeader())), DataBytes(kw), at, chunk);
  }

  /** A record that stands in the data of a keyword. */
  lemma FramesWeigh(kw: Keyword, at: nat, payload: seq<Byte>, start: nat, length: nat)
    requires Keywords.Valid(kw) && FitsInt32(|payload|) && At(DataBytes(kw), at, Record(payload))
    requires start == 24 + at && length == |payload|
    ensures Weighs(KeywordBytes(kw), start, length)
    ensures Weighs(KeywordBytes(kw), start + 4 + length, length)
  {
    hide At, Record, HeaderBytes, DataBytes, Weighs, EncodeInt, Keywords.Valid;
    HeaderInFront(kw, at, Record(payload));
    RecordParts(KeywordBytes(kw), start, payload);
    WeighsInside(KeywordBytes(kw), start, length);
    WeighsInside(KeywordBytes(kw), start + 4 + length, length);
  }

  /** Where each element stands, and its bytes. */
  lemma ElementLayout(kw: Keyword, e: nat)
    requires Keywords.Valid(kw) && e < |kw.data|
    ensures
      var b, m, w := KeywordBytes(kw), PerRecord(kw.dataType), Width(kw.dataType);
      var at := 24 + e * w + 8 * (e / m) + 4;
      0 <= at && at + w <= |b| && ElementBytes(kw.dataType, kw.data[e], b[at..at + w])
  {
    var t := kw.dataType;
    Sizes(t);
    ElementIsSpelledOut(t, kw.data[e]);
    ElementInData(kw, e);
    hide Record, HeaderBytes, DataBytes, Encode, ElementBytes, Width, PerRecord, IoSize, BlockSize, KeywordBytes;
    HeaderInFront(kw, ElementOffset(e, IoSize(t), BlockSize(t)), Encode(t, kw.data[e]));
  }

  /** How many bytes a keyword takes. */
  lemma KeywordLayout(kw: Keyword)
    requires Keywords.Valid(kw)
    ensures
      var n, m, w := |kw.data|, PerRecord(kw.dataType), Width(kw.dataType);
      |KeywordBytes(kw)| == 24 + n * w + 8 * (n / m + if n % m == 0 then 0 else 1)
  {
    Sizes(kw.dataType);
    SizeOfKeyword(kw);
    hide KeywordBytes, IoSize, BlockSize, Width;
  }

  /** A name stands for a type just when its letters spell it. */
  lemma TypeNameMeaning(name: seq<Byte>, t: DataType)
    requires |name| == 4
    ensures TypeFromName(name) == Some(t) <==> SpelledOut(t, name)
  {
    if SpelledOut(t, name) {
      assert name == [name[0], name[1], name[2], name[3]];
    }
  }

  /** A header is found just where 16 bytes stand between two equal positive lengths and spell a type. */
  lemma HeaderMeaning(bytes: seq<Byte>, pos: nat, h: Header)
    ensures HeaderAt(bytes, pos) == Found(h) <==>
      && pos + 24 <= |bytes|
      && (exists size :: 0 < size <= MAX_INT32 && Weighs(bytes, pos, size) && Weighs(bytes, pos + 20, size))
      && SpelledOut(h.dataType, bytes[pos + 16..pos + 20])
      && FitsInt32(h.size) && Weighs(bytes, pos + 12, h.size) && h.header8 == Pad(CString(bytes[pos + 4..pos + 12]), 8)
  {
    if pos + 24 <= |bytes| {
      DecodedWeighs(bytes, pos);
      DecodedWeighs(bytes, pos + 20);
      DecodedWeighs(bytes, pos + 12);
      TypeNameMeaning(bytes[pos + 16..pos + 20], h.dataType);
      hide DecodeInt, TypeFromName, SpelledOut, CString, Weighs;
      var size := DecodeInt(bytes[pos..pos + 4]);
      if size > 0 && DecodeInt(bytes[pos + 20..pos + 24]) == size {
        assert Weighs(bytes, pos, size) && Weighs(bytes, pos + 20, size);
      }
    }
  }

  /** Four bytes weigh just the integer that they are read as. */
  lemma DecodedWeighs(bytes: seq<Byte>, pos: nat)
    requires pos + 4 <= |bytes|
    ensures forall n :: FitsInt32(n) ==> (Weighs(bytes, pos, n) <==> DecodeInt(bytes[pos..pos + 4]) == n)
  {
    var b := bytes[pos..pos + 4];
    assert b[0] == bytes[pos] && b[1] == bytes[pos + 1] && b[2] == bytes[pos + 2] && b[3] == bytes[pos + 3];
    DigitsOf(b);
    hide DecodeInt;
  }

  /** What is read from the bytes of an element, whoever wrote them. */
  lemma DecodeMeaning(t: DataType, b: seq<Byte>)
    requires |b| == IoSize(t)
    ensures t == Logi ==> Decode(t, b) == Logical(b == [255, 255, 255, 255])
    ensures t.Inte? || t.Real? || t.Doub? ==>
      Decode(t, b).Number? && ElementBytes(t, Decode(t, b), b)
    ensures t.Char? || t.Str? ==>
      && Decode(t, b).Text? && Decode(t, b).chars <= b && 0 !in Decode(t, b).chars
      && (|Decode(t, b).chars| < |b| ==> b[|Decode(t, b).chars|] == 0)
  {
    if t == Logi {
      DecodedWeighs(b, 0);
      assert b[0..4] == b;
      assert Weighs(b, 0, -1) <==> b == [255, 255, 255, 255];
    } else if t.Char? || t.Str? {
      CStringEnds(b);
    }
  }

  lemma {:induction false} CStringEnds(b: seq<Byte>)
    ensures |CString(b)| < |b| ==> b[|CString(b)|] == 0
  {
    if b != [] && b[0] != 0 { CStringEnds(b[1..]); }
  }
}
