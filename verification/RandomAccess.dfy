/** Reading single elements of a keyword without reading all of it. */
module RandomAccess {
  import opened Prelude
  import opened Arithmetic
  import opened Bytes
  import opened FortranIO
  import opened KeywordTypes
  import opened Keywords

  /** A part of the payload stands inside its record. */
  lemma InRecord(payload: seq<Byte>, at: nat, piece: seq<Byte>)
    requires FitsInt32(|payload|) && At(payload, at, piece)
    ensures At(Record(payload), 4 + at, piece)
  {
    hide EncodeInt;
    var r := Record(payload);
    forall i | 0 <= i < |piece| ensures r[4 + at + i] == piece[i] {
      assert payload[at..at + |piece|][i] == payload[at + i];
    }
    assert r[4 + at..4 + at + |piece|] == piece;
  }

  lemma InFront(a: seq<Byte>, b: seq<Byte>, at: nat, piece: seq<Byte>)
    requires At(a, at, piece)
    ensures At(a + b, at, piece)
  {
    assert (a + b)[at..at + |piece|] == a[at..at + |piece|];
  }

  /** A piece in front of byte `cut` stands in the first part, a piece behind it in the rest. */
  lemma InPart(buffer: seq<Byte>, cut: nat, at: nat, piece: seq<Byte>)
    requires At(buffer, at, piece) && cut <= |buffer|
    ensures at + |piece| <= cut ==> At(buffer[..cut], at, piece)
    ensures cut <= at ==> At(buffer[cut..], at - cut, piece)
  {
    if at + |piece| <= cut {
      assert buffer[..cut][at..at + |piece|] == buffer[at..at + |piece|];
    }
    if cut <= at {
      assert buffer[cut..][at - cut..at - cut + |piece|] == buffer[at..at + |piece|];
    }
  }

  /** An element of a later block stands one block further on. */
  lemma NextBlockOffset(e: nat, size: nat, blockSize: nat)
    requires 0 < blockSize <= e
    ensures ElementOffset(e, size, blockSize) ==
            Times(blockSize, size) + FRAME + ElementOffset(e - blockSize, size, blockSize)
    ensures Times(e, size) == Times(blockSize, size) + Times(e - blockSize, size)
  {
    OneBlockLess(e, blockSize);
    TimesIsProduct(e, size);
    TimesIsProduct(e - blockSize, size);
    TimesSum(blockSize, e - blockSize, size);
  }

  lemma FirstBlockOffset(e: nat, size: nat, blockSize: nat)
    requires e < blockSize
    ensures ElementOffset(e, size, blockSize) == 4 + Times(e, size)
    ensures Times(e, size) + size <= Times(blockSize, size)
  {
    NoQuotient(e, blockSize);
    TimesIsProduct(e, size);
    TimesEnds(e, blockSize, size);
    hide Times;
  }

  lemma NoQuotient(e: nat, d: nat)
    requires e < d
    ensures e / d == 0
  {
    DivMod(e, 0, d);
  }

  lemma TimesEnds(e: nat, n: nat, size: nat)
    requires e < n
    ensures Times(e, size) + size <= Times(n, size)
  {
    TimesSum(e + 1, n - e - 1, size);
    assert Times(e + 1, size) == Times(e, size) + size;
  }

  /** The offset of an element points at its bytes in the blocks. */
  lemma {:induction false} ElementInBlocks(buffer: seq<Byte>, n: nat, size: nat, blockSize: nat, e: nat,
                                           piece: seq<Byte>)
    requires 0 < blockSize && 0 < Times(blockSize, size) && FitsInt32(Times(blockSize, size))
    requires |buffer| == Times(n, size) && e < n && |piece| == size && At(buffer, Times(e, size), piece)
    ensures At(Records(Blocks(buffer, Times(blockSize, size))), ElementOffset(e, size, blockSize), piece)
    decreases n
  {
    hide At, Record, Records, Blocks, ElementOffset, Times;
    var chunk := Times(blockSize, size);
    var length := if |buffer| <= chunk then |buffer| else chunk;
    SizeIsPositive(blockSize, size);
    if e < blockSize {
      FirstBlockOffset(e, size, blockSize);
      StandsInside(buffer, Times(e, size), piece);
      FirstBlock(buffer, chunk);
      InPart(buffer, length, Times(e, size), piece);
      InRecord(buffer[..length], Times(e, size), piece);
      InFront(Record(buffer[..length]), Records(Blocks(buffer[length..], chunk)), ElementOffset(e, size, blockSize),
              piece);
    } else {
      NextBlockOffset(e, size, blockSize);
      TimesSum(blockSize, n - blockSize, size);
      TimesPositive(n - blockSize, size);
      FirstBlock(buffer, chunk);
      InPart(buffer, chunk, Times(e, size), piece);
      ElementInBlocks(buffer[chunk..], n - blockSize, size, blockSize, e - blockSize, piece);
      ShiftedAt(Record(buffer[..chunk]), Records(Blocks(buffer[chunk..], chunk)),
                ElementOffset(e - blockSize, size, blockSize), piece);
    }
  }

  lemma SizeIsPositive(blockSize: nat, size: nat)
    requires Times(blockSize, size) > 0
    ensures size > 0
  {
    TimesIsProduct(blockSize, size);
  }

  lemma StandsInside(buffer: seq<Byte>, at: nat, piece: seq<Byte>)
    requires At(buffer, at, piece)
    ensures at + |piece| <= |buffer|
  {
  }

  /** The offset of an element points at its bytes in the data of its keyword. */
  lemma ElementInData(kw: Keyword, e: nat)
    requires Keywords.Valid(kw) && e < |kw.data|
    ensures BlockSize(kw.dataType) > 0
    ensures At(DataBytes(kw), ElementOffset(e, IoSize(kw.dataType), BlockSize(kw.dataType)),
            Encode(kw.dataType, kw.data[e]))
  {
    var t := kw.dataType;
    ElementAt(t, kw.data, e);
    ChunkSize(t);
    ElementInBlocks(EncodeAll(t, kw.data), |kw.data|, IoSize(t), BlockSize(t), e, Encode(t, kw.data[e]));
  }

  /** What the byte flip makes of an element: nothing of a single byte, and of two bytes only one is kept. There is no
      flip for other sizes than 1, 2, 4 and 8. */
  function Flipped(size: nat, b: seq<Byte>): (r: Option<seq<Byte>>)
    requires |b| == size
    ensures r.Some? <==> size in {1, 2, 4, 8}
  {
    if size == 1 then Some(b)
    else if size == 2 then Some([b[1], 0])
    else if size == 4 || size == 8 then Some(Reversed(b))
    else None
  }

  /** A selective read ends with the elements, at an index out of range, or by stopping the program. */
  datatype SelectiveRead = Elements(elements: seq<seq<Byte>>) | BadIndex | Stopped

  predicate AllInRange(indexMap: seq<int>, n: int) {
    forall k :: 0 <= k < |indexMap| ==> 0 <= indexMap[k] < n
  }

  /** What a selective read makes of the elements of a keyword. */
  ghost predicate IsSelection(kw: Keyword, indexMap: seq<int>, r: SelectiveRead)
    requires Keywords.Valid(kw)
  {
    match r
    case BadIndex => !AllInRange(indexMap, |kw.data|)
    case Stopped => AllInRange(indexMap, |kw.data|) && IoSize(kw.dataType) !in {1, 2, 4, 8}
    case Elements(elements) =>
      && AllInRange(indexMap, |kw.data|) && IoSize(kw.dataType) in {1, 2, 4, 8} && |elements| == |indexMap|
      && forall k :: 0 <= k < |indexMap| ==>
           Flipped(IoSize(kw.dataType), Encode(kw.dataType, kw.data[indexMap[k]])) == Some(elements[k])
  }

  /** Reads some elements of a keyword and flips their bytes. An index out of range is refused. */
  method FreadIndexedData(io: FortIO, kwOffset: nat, t: DataType, elementCount: int, indexMap: seq<int>,
                          ghost kw: Keyword)
    returns (r: SelectiveRead)
    requires Keywords.Valid(kw) && At(io.bytes, kwOffset, KeywordBytes(kw)) && t == kw.dataType &&
             elementCount == |kw.data|
    requires io.writable || |io.bytes| <= io.readSize
    modifies io`pos
    ensures IsSelection(kw, indexMap, r)
    ensures r != BadIndex ==>
      (GivesFullRead(NormalKeyword(kw), indexMap, r) <==>
        IoSize(t) in {1, 2, 4, 8} && forall k :: 0 <= k < |indexMap| ==> SelectivelyReadable(t, kw.data[indexMap[k]]))
  {
    hide At, Record, HeaderBytes, DataBytes, Encode, Fits, ElementOffset, Flipped, SelectivelyReadable, IoSize;
    hide GivesFullRead;
    var elements: seq<seq<Byte>> := [];
    var dataOffset := kwOffset + HEADER_FORTIO_SIZE;
    AtSplit(io.bytes, kwOffset, Record(HeaderBytes(kw.GetHeader())), DataBytes(kw));
    for k := 0 to |indexMap|
      invariant |elements| == k
      invariant forall l :: 0 <= l < k ==>
                0 <= indexMap[l] < elementCount && elements[l] == Encode(t, kw.data[indexMap[l]])
    {
      var e := indexMap[k];
      var inRange := io.DataFseek(dataOffset, e, IoSize(t), elementCount, BlockSize(t));
      if !inRange { return BadIndex; }
      ElementInData(kw, e);
      AtPart(io.bytes, dataOffset, DataBytes(kw), ElementOffset(e, IoSize(t), BlockSize(t)), Encode(t, kw.data[e]));
      StandsInside(io.bytes, dataOffset + ElementOffset(e, IoSize(t), BlockSize(t)), Encode(t, kw.data[e]));
      var element := io.Fread(IoSize(t));
      SameBytes(io.bytes, dataOffset + ElementOffset(e, IoSize(t), BlockSize(t)), element, Encode(t, kw.data[e]));
      elements := elements + [element];
    }
    if IoSize(t) in {1, 2, 4, 8} {
      r := Elements(seq(|elements|, k requires 0 <= k < |elements| => Flipped(IoSize(t), elements[k]).value));
    } else {
      r := Stopped;
    }
    SelectionIsFullRead(kw, indexMap, r);
  }

  lemma SameBytes(bytes: seq<Byte>, pos: nat, a: seq<Byte>, b: seq<Byte>)
    requires (a != [] ==> At(bytes, pos, a)) && At(bytes, pos, b) && (|a| == |b| || (|a| < |b| && pos + |a| >= |bytes|))
    ensures a == b
  {
  }

  /** The native bytes of an element as a full read gives it. */
  ghost predicate IsElement(v: Value, native: seq<Byte>) {
    match v
    case Number(bytes) => native == bytes
    case Logical(on) => |native| == 4 && (DecodeInt(Reversed(native)) == BOOL_TRUE <==> on)
    case Text(chars) => native == chars
  }

  /** A selective read gives the elements that a full read gives. */
  ghost predicate GivesFullRead(full: Keyword, indexMap: seq<int>, r: SelectiveRead) {
    && r.Elements? && |r.elements| == |indexMap|
    && forall k :: 0 <= k < |indexMap| ==>
         0 <= indexMap[k] < |full.data| && IsElement(full.data[indexMap[k]], r.elements[k])
  }

  /** A number or a truth value, or a string that is the same backwards and does not have two characters. */
  predicate SelectivelyReadable(t: DataType, v: Value) {
    v.Text? ==> |v.chars| <= IoSize(t) != 2 && Reversed(Pad(v.chars, IoSize(t))) == Pad(v.chars, IoSize(t))
  }

  /** What the flip makes of one element. */
  lemma FlippedElement(t: DataType, v: Value)
    requires Fits(t, v)
    ensures
      var flipped := Flipped(IoSize(t), Encode(t, v));
      flipped.Some? ==> (IsElement(Normal(t, v), flipped.value) <==> SelectivelyReadable(t, v))
  {
    hide DecodeInt;
    ReversedTwice(Encode(t, v));
    ValueRoundTrip(t, v);
    match v {
      case Number(native) => ReversedTwice(native);
      case Logical(_) =>
      case Text(chars) =>
        var padded := Pad(chars, IoSize(t));
        if IoSize(t) == 2 { assert padded[1] in padded; assert [padded[1], 0][1] == 0; }
    }
  }

  /**
   * A selective read gives what a full read gives just when there is a flip for the size of the elements and each
   * chosen one is a number, a truth value, or a string that the flip leaves alone.
   */
  lemma SelectionIsFullRead(kw: Keyword, indexMap: seq<int>, r: SelectiveRead)
    requires Keywords.Valid(kw) && IsSelection(kw, indexMap, r) && r != BadIndex
    ensures
      GivesFullRead(NormalKeyword(kw), indexMap, r) <==>
        IoSize(kw.dataType) in {1, 2, 4, 8} && forall k :: 0 <= k < |indexMap| ==>
          SelectivelyReadable(kw.dataType, kw.data[indexMap[k]])
  {
    hide Encode, Flipped, SelectivelyReadable, IsElement, Normal, ValidHeader, Fits, IoSize;
    if r.Elements? {
      forall k | 0 <= k < |indexMap|
        ensures IsElement(NormalKeyword(kw).data[indexMap[k]], r.elements[k]) <==>
                SelectivelyReadable(kw.dataType, kw.data[indexMap[k]])
      {
        FlippedElement(kw.dataType, kw.data[indexMap[k]]);
      }
    }
  }

  /**
   * A string of eight characters comes out of a selective read reversed, one of two characters loses one, and strings
   * of five characters stop the program.
   */
  lemma StringsAreNotSelectivelyReadable()
    ensures !SelectivelyReadable(Char, Text([65, 66])) && !SelectivelyReadable(Str(2), Text([65, 65]))
    ensures Flipped(IoSize(Str(5)), Encode(Str(5), Text([65, 66, 67, 66, 65]))) == None
  {
    assert Reversed(Pad([65, 66], 8))[0] == SPACE;
  }
}
