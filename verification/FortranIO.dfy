/** Fortran records: each payload stands between two copies of its length. */
module FortranIO {
  import opened Prelude
  import opened Bytes

  const FRAME := 8

  function Record(payload: seq<Byte>): (r: seq<Byte>)
    requires FitsInt32(|payload|)
    ensures |r| == |payload| + FRAME
  {
    EncodeInt(|payload|) + payload + EncodeInt(|payload|)
  }

  /** Payloads that fit their length fields. */
  ghost predicate Framable(segments: seq<seq<Byte>>) {
    forall i :: 0 <= i < |segments| ==> FitsInt32(|segments[i]|)
  }

  function Records(segments: seq<seq<Byte>>): (r: seq<Byte>)
    requires Framable(segments)
    ensures |r| == |Joined(segments)| + FRAME * |segments|
  {
    if segments == [] then [] else Record(segments[0]) + Records(segments[1..])
  }

  function Joined(segments: seq<seq<Byte>>): seq<Byte> {
    if segments == [] then [] else segments[0] + Joined(segments[1..])
  }

  /** A way to cut up a payload that a reader does not stop inside of: only a single segment may end empty. */
  ghost predicate Readable(segments: seq<seq<Byte>>) {
    segments != [] && (|segments| == 1 || segments[|segments|-1] != [])
  }

  /** The next record in a file. */
  function NextRecord(bytes: seq<Byte>, pos: nat): (r: Option<seq<Byte>>)
    ensures r.Some? ==> FitsInt32(|r.value|) && At(bytes, pos, Record(r.value))
  {
    if pos + 4 > |bytes| then None else
      var size := DecodeInt(bytes[pos..pos + 4]);
      if size < 0 || pos + size + FRAME > |bytes| || DecodeInt(bytes[pos + 4 + size..pos + size + FRAME]) != size
        then None
      else
        assert At(bytes, pos, Record(bytes[pos + 4..pos + 4 + size])) by {
          DecodedIntIsEncoded(bytes[pos..pos + 4]);
          DecodedIntIsEncoded(bytes[pos + 4 + size..pos + size + FRAME]);
          FramesPayload(bytes, pos, size);
        }
        Some(bytes[pos + 4..pos + 4 + size])
  }

  lemma FramesPayload(bytes: seq<Byte>, pos: nat, size: nat)
    requires FitsInt32(size) && pos + size + FRAME <= |bytes|
    requires bytes[pos..pos + 4] == EncodeInt(size) == bytes[pos + 4 + size..pos + size + FRAME]
    ensures At(bytes, pos, Record(bytes[pos + 4..pos + 4 + size]))
  {
    var payload := bytes[pos + 4..pos + 4 + size];
    AtSplit(bytes, pos, EncodeInt(size), payload);
    AtSplit(bytes, pos, EncodeInt(size) + payload, EncodeInt(size));
  }

  lemma RecordParts(bytes: seq<Byte>, pos: nat, payload: seq<Byte>)
    requires FitsInt32(|payload|) && At(bytes, pos, Record(payload))
    ensures At(bytes, pos, EncodeInt(|payload|)) && At(bytes, pos + 4, payload) &&
            At(bytes, pos + 4 + |payload|, EncodeInt(|payload|))
    ensures DecodeInt(EncodeInt(|payload|)) == |payload|
  {
    IntRoundTrip(|payload|);
    AtSplit(bytes, pos, EncodeInt(|payload|) + payload, EncodeInt(|payload|));
    AtSplit(bytes, pos, EncodeInt(|payload|), payload);
  }

  /** The next record is the one that stands there. */
  lemma NextIsRecord(bytes: seq<Byte>, pos: nat, payload: seq<Byte>)
    requires FitsInt32(|payload|) && At(bytes, pos, Record(payload))
    ensures NextRecord(bytes, pos) == Some(payload)
  {
    RecordParts(bytes, pos, payload);
  }

  /** The records that a reader of `n` bytes goes through; none if the file does not hold such records. */
  ghost function Segments(bytes: seq<Byte>, pos: nat, n: nat): Option<seq<seq<Byte>>>
    decreases |bytes| - pos
  {
    match NextRecord(bytes, pos)
    case None => None
    case Some(first) =>
      assert pos + |first| + FRAME <= |bytes|;
      if |first| > n then None
      else if |first| == n then Some([first])
      else match Segments(bytes, pos + |first| + FRAME, n - |first|)
        case None => None
        case Some(rest) => Some([first] + rest)
  }

  /** A reader finds exactly the records that stand in the file, however the payload is cut up. */
  lemma {:induction false} SegmentsOfRecords(bytes: seq<Byte>, pos: nat, segments: seq<seq<Byte>>)
    requires Framable(segments) && Readable(segments) && At(bytes, pos, Records(segments))
    ensures Segments(bytes, pos, |Joined(segments)|) == Some(segments)
    decreases |segments|
  {
    hide At, Record, NextRecord, Records, Joined, Segments;
    var first, rest := segments[0], segments[1..];
    FirstRecord(segments);
    AtSplit(bytes, pos, Record(first), Records(rest));
    NextIsRecord(bytes, pos, first);
    assert segments == [first] + rest && [first] + [] == [first];
    if rest != [] { SegmentsOfRecords(bytes, pos + |first| + FRAME, rest); }
    SegmentsFrom(bytes, pos, |Joined(segments)|, first);
  }

  /** Records and joined payload from the front. */
  lemma FirstRecord(segments: seq<seq<Byte>>)
    requires Framable(segments) && Readable(segments)
    ensures
      var first, rest := segments[0], segments[1..];
      && FitsInt32(|first|) && Framable(rest) && |Record(first)| == |first| + FRAME
      && Records(segments) == Record(first) + Records(rest) && |Joined(segments)| == |first| + |Joined(rest)|
      && (rest == [] ==> |Joined(rest)| == 0)
      && (rest != [] ==> Readable(rest) && |Joined(rest)| > 0)
  {
    if |segments| > 1 { LastIsJoined(segments[1..]); }
  }

  /** What a reader does with one record. */
  lemma SegmentsFrom(bytes: seq<Byte>, pos: nat, n: nat, first: seq<Byte>)
    requires NextRecord(bytes, pos) == Some(first)
    ensures |first| == n ==> Segments(bytes, pos, n) == Some([first])
    ensures |first| < n ==>
      var rest := Segments(bytes, pos + |first| + FRAME, n - |first|);
      Segments(bytes, pos, n) == if rest == None then None else Some([first] + rest.value)
  {
    hide At, Record, NextRecord;
  }

  lemma {:induction false} LastIsJoined(segments: seq<seq<Byte>>)
    requires segments != []
    ensures |Joined(segments)| >= |segments[|segments|-1]|
  {
    if |segments| > 1 { LastIsJoined(segments[1..]); }
  }

  /** Whatever a reader finds does stand in the file. */
  lemma {:induction false} SegmentsStandThere(bytes: seq<Byte>, pos: nat, n: nat)
    requires Segments(bytes, pos, n).Some?
    ensures
      var segments := Segments(bytes, pos, n).value;
      Framable(segments) && Readable(segments) && |Joined(segments)| == n && At(bytes, pos, Records(segments))
    decreases |bytes| - pos
  {
    hide At, Record, NextRecord, Records, Joined, Framable, Readable;
    var first := NextRecord(bytes, pos).value;
    OneRecord(first);
    AtInside(bytes, pos, Record(first));
    if |first| != n {
      var next := pos + |first| + FRAME;
      SegmentsStandThere(bytes, next, n - |first|);
      var rest := Segments(bytes, next, n - |first|).value;
      RecordInFront(first, rest);
      AtSplit(bytes, pos, Record(first), Records(rest));
    }
  }

  lemma AtInside(bytes: seq<Byte>, pos: nat, chunk: seq<Byte>)
    requires At(bytes, pos, chunk)
    ensures pos + |chunk| <= |bytes|
  {
  }

  lemma OneRecord(first: seq<Byte>)
    requires FitsInt32(|first|)
    ensures |Record(first)| == |first| + FRAME
    ensures Framable([first]) && Readable([first]) && |Joined([first])| == |first| && Records([first]) == Record(first)
  {
    assert [first][1..] == [];
  }

  /** One more record in front of others, which do not end empty. */
  lemma RecordInFront(first: seq<Byte>, rest: seq<seq<Byte>>)
    requires FitsInt32(|first|) && Framable(rest) && Readable(rest) && |Joined(rest)| > 0
    ensures
      var segments := [first] + rest;
      && Framable(segments) && Readable(segments) && |Record(first)| == |first| + FRAME
      && |Joined(segments)| == |first| + |Joined(rest)| && Records(segments) == Record(first) + Records(rest)
  {
    hide Record;
    var segments := [first] + rest;
    assert segments[1..] == rest;
    if |rest| == 1 { assert Joined(rest[1..]) == []; }
  }

  function Prepend(done: seq<seq<Byte>>, rest: Option<seq<seq<Byte>>>): Option<seq<seq<Byte>>> {
    if rest.None? then None else Some(done + rest.value)
  }

  /** One step of a reader that still wants `n` bytes. */
  lemma SegmentsStep(bytes: seq<Byte>, pos: nat, n: nat, done: seq<seq<Byte>>)
    ensures
      match NextRecord(bytes, pos)
      case None => Segments(bytes, pos, n) == None
      case Some(first) =>
        && (|first| > n ==> Segments(bytes, pos, n) == None)
        && (|first| == n ==> Prepend(done, Segments(bytes, pos, n)) == Some(done + [first]))
        && (|first| < n ==> Prepend(done, Segments(bytes, pos, n))
                            == Prepend(done + [first], Segments(bytes, pos + |first| + FRAME, n - |first|)))
  {
    hide NextRecord;
    if NextRecord(bytes, pos).Some? {
      var first := NextRecord(bytes, pos).value;
      if |first| < n && Segments(bytes, pos + |first| + FRAME, n - |first|).Some? {
        var rest := Segments(bytes, pos + |first| + FRAME, n - |first|).value;
        assert done + ([first] + rest) == done + [first] + rest;
      }
    }
  }

  lemma EndStep(bytes: seq<Byte>, pos: nat, n: nat)
    ensures
      match NextRecord(bytes, pos)
      case Some(first) =>
        BufferEnd(bytes, pos, n) ==
        if |first| < n then BufferEnd(bytes, pos + |first| + FRAME, n - |first|) else RecordEnd(bytes, pos, n)
      case None => BufferEnd(bytes, pos, n) == RecordEnd(bytes, pos, n)
  {
    hide NextRecord, RecordEnd;
  }

  datatype Whence = FromStart | FromHere | FromEnd

  /** Where a read of `n` bytes ends: at the end of the file if there are fewer. */
  function Advance(bytes: seq<Byte>, pos: nat, n: nat): nat {
    if pos >= |bytes| then pos else if pos + n <= |bytes| then pos + n else |bytes|
  }

  /** The length in front of a record; -1 if its four bytes are not there. */
  function LengthAt(bytes: seq<Byte>, pos: nat): int {
    if pos + 4 <= |bytes| then DecodeInt(bytes[pos..pos + 4]) else -1
  }

  /** Where the reader of one record of at most `limit` bytes ends, whether it finds the record or not. */
  function RecordEnd(bytes: seq<Byte>, pos: nat, limit: nat): nat {
    var start, size := Advance(bytes, pos, 4), LengthAt(bytes, pos);
    if size < 0 || limit < size then start
    else if start + size > |bytes| then Advance(bytes, start, size)
    else Advance(bytes, start + size, 4)
  }

  /** Where the reader of `n` bytes ends: behind the last record, or where the next one failed. */
  ghost function BufferEnd(bytes: seq<Byte>, pos: nat, n: nat): nat
    decreases |bytes| - pos
  {
    match NextRecord(bytes, pos)
    case Some(first) =>
      assert pos + |first| + FRAME <= |bytes|;
      if |first| < n then BufferEnd(bytes, pos + |first| + FRAME, n - |first|) else RecordEnd(bytes, pos, n)
    case None => RecordEnd(bytes, pos, n)
  }

  /** Where the skipping of a record ends, framed or not. */
  function SkipEnd(bytes: seq<Byte>, writable: bool, readSize: nat, pos: nat): nat {
    var start := Advance(bytes, pos, 4);
    var target := start + LengthAt(bytes, pos);
    Advance(bytes, if 0 <= target && (writable || target <= readSize) then target else start, 4)
  }

  /** Skipping a whole record ends behind it. */
  lemma RecordSkipped(bytes: seq<Byte>, writable: bool, readSize: nat, pos: nat, payload: seq<Byte>)
    requires FitsInt32(|payload|) && At(bytes, pos, Record(payload)) && (writable || |bytes| <= readSize)
    ensures LengthAt(bytes, pos) == |payload| && SkipEnd(bytes, writable, readSize, pos) == pos + |Record(payload)|
  {
    RecordParts(bytes, pos, payload);
    hide Record, DecodeInt, EncodeInt;
  }

  /** A file that is open, at a position. */
  class FortIO {
    var bytes: seq<Byte>
    var pos: nat
    const writable: bool
    /** The size that the file had when it was opened. */
    const readSize: nat

    constructor (bytes: seq<Byte>, writable: bool)
      ensures this.bytes == bytes && pos == 0 && this.writable == writable && readSize == |bytes|
    {
      this.bytes, pos, this.writable, readSize := bytes, 0, writable, |bytes|;
    }

    /** Reads as many bytes as there are, but no more than `n`. */
    method Fread(n: nat) returns (buffer: seq<Byte>)
      modifies this`pos
      ensures |buffer| <= n && pos == old(pos) + |buffer| && (buffer != [] ==> At(bytes, old(pos), buffer))
      ensures |buffer| < n ==> pos >= |bytes|
      ensures pos == Advance(bytes, old(pos), n)
    {
      if pos >= |bytes| {
        buffer := [];
      } else {
        var end := if pos + n <= |bytes| then pos + n else |bytes|;
        buffer := bytes[pos..end];
        pos := end;
      }
    }

    method Fwrite(buffer: seq<Byte>)
      modifies this`pos, this`bytes
      ensures bytes == Overwrite(old(bytes), old(pos), buffer) && pos == old(pos) + |buffer|
    {
      bytes := Overwrite(bytes, pos, buffer);
      pos := pos + |buffer|;
    }

    /** Reads the length in front of a record; -1 at the end of the file. */
    method InitRead() returns (recordSize: int)
      modifies this`pos
      ensures recordSize == LengthAt(bytes, old(pos)) && pos == Advance(bytes, old(pos), 4)
    {
      var buffer := Fread(4);
      if |buffer| == 4 {
        recordSize := DecodeInt(buffer);
      } else {
        recordSize := -1;
      }
    }

    /** Reads the length behind a record and compares. */
    method CompleteRead(recordSize: int) returns (ok: bool)
      modifies this`pos
      ensures ok <==> old(pos) + 4 <= |bytes| && DecodeInt(bytes[old(pos)..old(pos) + 4]) == recordSize
      ensures pos == Advance(bytes, old(pos), 4)
    {
      var trailer := Fread(4);
      ok := |trailer| == 4 && DecodeInt(trailer) == recordSize;
    }

    /** Reads one record of at most `limit` bytes. */
    method FreadRecord(limit: nat) returns (record: Option<seq<Byte>>)
      modifies this`pos
      ensures record == match NextRecord(bytes, old(pos))
                        case None => None
                        case Some(payload) => if |payload| <= limit then Some(payload) else None
      ensures record.Some? ==> pos == old(pos) + |record.value| + FRAME <= |bytes|
      ensures pos == RecordEnd(bytes, old(pos), limit)
    {
      var recordSize := InitRead();
      if recordSize < 0 || limit < recordSize { return None; }
      var items: seq<Byte> := [];
      if recordSize > 0 { items := Fread(recordSize); }
      if |items| != recordSize { return None; }
      var complete := CompleteRead(recordSize);
      return if complete then Some(items) else None;
    }

    /** Fills a buffer from as many records as it takes; the records must end where the buffer is full. */
    method FreadBuffer(bufferSize: int) returns (ok: bool, buffer: seq<Byte>)
      modifies this`pos
      ensures ok <==> bufferSize >= 0 && Segments(bytes, old(pos), bufferSize).Some?
      ensures ok ==>
        var segments := Segments(bytes, old(pos), bufferSize).value;
        Framable(segments) && buffer == Joined(segments) && pos == old(pos) + |Records(segments)|
      ensures pos == if bufferSize < 0 then old(pos) else BufferEnd(bytes, old(pos), bufferSize)
    {
      hide Segments, Records, Joined, NextRecord, RecordEnd, BufferEnd;
      ok, buffer := false, [];
      if bufferSize < 0 { return; }
      ghost var start, done := pos, [];
      NothingJoined();
      while true
        invariant buffer == [] || |buffer| < bufferSize
        invariant Framable(done) && buffer == Joined(done) && pos == start + |Records(done)|
        invariant Segments(bytes, start, bufferSize) == Prepend(done, Segments(bytes, pos, bufferSize - |buffer|))
        invariant BufferEnd(bytes, start, bufferSize) == BufferEnd(bytes, pos, bufferSize - |buffer|)
        decreases |bytes| - pos
      {
        SegmentsStep(bytes, pos, bufferSize - |buffer|, done);
        EndStep(bytes, pos, bufferSize - |buffer|);
        var record := FreadRecord(bufferSize - |buffer|);
        if record.None? { return; }
        JoinedMore(done, record.value);
        buffer, done := buffer + record.value, done + [record.value];
        if |buffer| >= bufferSize { break; }
      }
      ok := |buffer| == bufferSize;
    }

    /** Moves to a place in the file. A file that is only read is not left by this. */
    method Fseek(offset: int, whence: Whence) returns (ok: bool)
      modifies this`pos
      ensures
        var origin := match whence
          case FromStart => 0
          case FromHere => old(pos)
          case FromEnd => if writable then |bytes| else readSize;
        var target := offset + origin;
        && (ok <==> 0 <= target && (writable || target <= readSize))
        && pos == if ok then target else old(pos)
    {
      var target := offset;
      match whence {
        case FromStart =>
        case FromHere => target := target + pos;
        case FromEnd => target := target + if writable then |bytes| else readSize;
      }
      ok := 0 <= target && (writable || target <= readSize);
      if ok { pos := target; }
    }

    method ReadAtEof() returns (eof: bool)
      ensures eof <==> pos == readSize
    {
      eof := pos == readSize;
    }

    method FwriteRecord(buffer: seq<Byte>)
      requires FitsInt32(|buffer|)
      modifies this`pos, this`bytes
      ensures bytes == Overwrite(old(bytes), old(pos), Record(buffer)) && pos == old(pos) + |Record(buffer)|
    {
      Fwrite(EncodeInt(|buffer|));
      Fwrite(buffer);
      Fwrite(EncodeInt(|buffer|));
      OverwriteTwice(old(bytes), old(pos), EncodeInt(|buffer|), buffer);
      OverwriteTwice(old(bytes), old(pos), EncodeInt(|buffer|) + buffer, EncodeInt(|buffer|));
    }

    /** Skips one record, or what is taken for one. */
    method FskipRecord() returns (recordSize: int)
      modifies this`pos
      ensures recordSize == LengthAt(bytes, old(pos)) && pos == SkipEnd(bytes, writable, readSize, old(pos))
      ensures forall payload: seq<Byte> ::
              FitsInt32(|payload|) && At(bytes, old(pos), Record(payload)) && (writable || |bytes| <= readSize) ==>
                recordSize == |payload| && pos == old(pos) + |Record(payload)|
    {
      hide Record, DecodeInt, At;
      recordSize := InitRead();
      var ok := Fseek(recordSize, FromHere);
      var complete := CompleteRead(recordSize);
      forall payload: seq<Byte> | FitsInt32(|payload|) && At(bytes, old(pos), Record(payload)) &&
        (writable || |bytes| <= readSize)
        ensures recordSize == |payload| && pos == old(pos) + |Record(payload)|
      {
        RecordSkipped(bytes, writable, readSize, old(pos), payload);
      }
    }

    /** Skips the data of a keyword: its elements and the frames of its blocks. */
    method DataFskip(elementSize: int, elementCount: int, blockCount: int) returns (ok: bool)
      modifies this`pos
      ensures
        var target := old(pos) + 4 * blockCount + 4 * blockCount + elementSize * elementCount;
        && (ok <==> 0 <= target && (writable || target <= readSize))
        && pos == if ok then target else old(pos)
    {
      ok := Fseek(blockCount * 4 + blockCount * 4 + elementSize * elementCount, FromHere);
    }

    /** Moves to one element in the data of a keyword that starts at `dataOffset`. An index out of range is refused. */
    method DataFseek(dataOffset: nat, element: int, elementSize: nat, elementCount: int, blockSize: nat)
      returns (inRange: bool)
      requires blockSize > 0
      modifies this`pos
      ensures inRange <==> 0 <= element < elementCount
      ensures inRange ==>
        var target := dataOffset + ElementOffset(element, elementSize, blockSize);
        pos == if writable || target <= readSize then target else old(pos)
      ensures !inRange ==> pos == old(pos)
    {
      inRange := 0 <= element < elementCount;
      if inRange {
        var blockIndex := element / blockSize;
        var skip := (blockIndex + 1) * 4 + blockIndex * 4 + element * elementSize;
        var ok := Fseek(dataOffset + skip, FromStart);
      }
    }
  }

  /** Where an element starts, counted from the start of the data of its keyword. */
  function ElementOffset(element: nat, elementSize: nat, blockSize: nat): nat
    requires blockSize > 0
  {
    (element / blockSize + 1) * 4 + element / blockSize * 4 + element * elementSize
  }

  lemma NothingJoined()
    ensures Joined([]) == [] && Records([]) == []
    ensures forall rest :: Prepend([], rest) == rest
  {
    forall rest: Option<seq<seq<Byte>>> | rest.Some? ensures Prepend([], rest) == rest {
      assert [] + rest.value == rest.value;
    }
  }

  lemma {:induction false} JoinedMore(segments: seq<seq<Byte>>, more: seq<Byte>)
    requires Framable(segments) && FitsInt32(|more|)
    ensures Joined(segments + [more]) == Joined(segments) + more
    ensures Records(segments + [more]) == Records(segments) + Record(more)
    decreases |segments|
  {
    if segments == [] {
      assert Joined([more]) == more;
      assert Records([more]) == Record(more);
    } else {
      assert (segments + [more])[1..] == segments[1..] + [more];
      JoinedMore(segments[1..], more);
    }
  }
}
