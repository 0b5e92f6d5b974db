/** The keywords of a file: where each one is, loading it, and saving it in place. */
module FileKeywords {
  import opened Prelude
  import opened Bytes
  import opened FortranIO
  import opened KeywordTypes
  import opened Keywords
  import opened KeywordIO

  function TrimRight(s: seq<Byte>): seq<Byte> {
    if s != [] && s[|s|-1] == SPACE then TrimRight(s[..|s|-1]) else s
  }

  function TrimLeft(s: seq<Byte>): seq<Byte> {
    if s != [] && s[0] == SPACE then TrimLeft(s[1..]) else s
  }

  /** The name of a keyword, without the spaces around it. */
  function Strip(s: seq<Byte>): seq<Byte> {
    TrimLeft(TrimRight(s))
  }

  /** A name without spaces around it is found again behind its padding. */
  lemma {:induction false} StripPadded(name: seq<Byte>, n: nat)
    requires |name| <= n && (name != [] ==> name[0] != SPACE && name[|name|-1] != SPACE)
    ensures Strip(Pad(name, n)) == name
    decreases n
  {
    var padded := Pad(name, n);
    if |name| < n {
      assert padded[..n - 1] == Pad(name, n - 1);
      StripPadded(name, n - 1);
    } else {
      assert padded == name;
    }
  }

  /** What a file tells about one of its keywords. */
  datatype Entry = Entry(offset: nat, dataType: DataType, size: int, name: seq<Byte>)

  function EntryOf(h: Header, offset: nat): Entry {
    Entry(offset, h.dataType, h.size, Strip(h.header8))
  }

  /** The keyword agrees with what the file told about it. */
  predicate Matches(entry: Entry, kw: Keyword) {
    entry.dataType == kw.dataType && entry.size == |kw.data| && entry.name == Strip(kw.header8)
  }

  ghost predicate AllValid(kws: seq<Keyword>) {
    forall i :: 0 <= i < |kws| ==> Keywords.Valid(kws[i])
  }

  /** The bytes of a file with the given keywords. */
  ghost function FileBytes(kws: seq<Keyword>): seq<Byte>
    requires AllValid(kws)
  {
    if kws == [] then [] else KeywordBytes(kws[0]) + FileBytes(kws[1..])
  }

  lemma {:induction false} FileBytesSum(a: seq<Keyword>, b: seq<Keyword>)
    requires AllValid(a) && AllValid(b)
    ensures FileBytes(a + b) == FileBytes(a) + FileBytes(b)
  {
    hide KeywordBytes;
    if a == [] {
      assert a + b == b;
    } else {
      assert (a + b)[1..] == a[1..] + b;
      FileBytesSum(a[1..], b);
    }
  }

  /** What a file tells about its keywords, if the first one stands at the given place. */
  ghost function Entries(kws: seq<Keyword>, pos: nat): (entries: seq<Entry>)
    requires AllValid(kws)
    ensures |entries| == |kws|
  {
    if kws == [] then [] else [EntryOf(kws[0].GetHeader(), pos)] + Entries(kws[1..], pos + |KeywordBytes(kws[0])|)
  }

  /** Entries and bytes of a file from the front. */
  lemma EntryAt(kws: seq<Keyword>, pos: nat, n: nat)
    requires AllValid(kws) && n < |kws|
    ensures FileBytes(kws) == KeywordBytes(kws[0]) + FileBytes(kws[1..])
    ensures n == 0 ==> Entries(kws, pos)[n] == EntryOf(kws[0].GetHeader(), pos) && |FileBytes(kws[..n])| == 0
    ensures n > 0 ==> Entries(kws, pos)[n] == Entries(kws[1..], pos + |KeywordBytes(kws[0])|)[n - 1]
    ensures n > 0 ==> |FileBytes(kws[..n])| == |KeywordBytes(kws[0])| + |FileBytes(kws[1..][..n - 1])|
  {
    hide KeywordBytes, EntryOf, Keywords.Valid;
    if n > 0 { assert kws[..n][1..] == kws[1..][..n - 1]; }
  }

  lemma EntryMatches(kw: Keyword, offset: nat)
    requires Keywords.Valid(kw)
    ensures EntryOf(kw.GetHeader(), offset).offset == offset && Matches(EntryOf(kw.GetHeader(), offset), kw)
  {
  }

  /** Each entry points at its keyword. */
  lemma {:induction false} EntryPointsAt(kws: seq<Keyword>, pos: nat, n: nat)
    requires AllValid(kws) && n < |kws|
    ensures
      var entry := Entries(kws, pos)[n];
      && entry == EntryOf(kws[n].GetHeader(), pos + |FileBytes(kws[..n])|)
      && At(FileBytes(kws), entry.offset - pos, KeywordBytes(kws[n])) && Matches(entry, kws[n])
  {
    hide KeywordBytes, At, Entries, FileBytes, EntryOf, Keywords.Valid;
    EntryAt(kws, pos, n);
    EntryMatches(kws[n], pos + |FileBytes(kws[..n])|);
    if n == 0 {
      FirstPart(KeywordBytes(kws[0]), FileBytes(kws[1..]));
    } else {
      EntryPointsAt(kws[1..], pos + |KeywordBytes(kws[0])|, n - 1);
      ShiftedAt(KeywordBytes(kws[0]), FileBytes(kws[1..]), |FileBytes(kws[1..][..n - 1])|, KeywordBytes(kws[n]));
    }
  }

  lemma FirstPart(a: seq<Byte>, b: seq<Byte>)
    ensures At(a + b, 0, a)
  {
  }

  /** The keyword that an entry of a file stands for, if it can be loaded and agrees with the entry. */
  ghost function LoadedEntry(bytes: seq<Byte>, entry: Entry): Option<Keyword> {
    match KeywordAt(bytes, entry.offset)
    case Loaded(kw, _) => if Matches(entry, kw) then Some(kw) else None
    case _ => None
  }

  /** An entry that points at a keyword loads it. */
  lemma LoadsWhereItPoints(bytes: seq<Byte>, entry: Entry, kw: Keyword)
    requires Keywords.Valid(kw) && At(bytes, entry.offset, KeywordBytes(kw)) && Matches(entry, kw)
    ensures LoadedEntry(bytes, entry) == Some(NormalKeyword(kw))
  {
    KeywordRoundTrip(bytes, entry.offset, kw);
    hide KeywordBytes, KeywordAt, At, Strip, Keywords.Valid, NormalAll;
  }

  /** Every entry of a file loads its keyword, whatever comes behind the keywords. */
  lemma EntryLoads(bytes: seq<Byte>, kws: seq<Keyword>, n: nat)
    requires AllValid(kws) && n < |kws| && FileBytes(kws) <= bytes
    ensures LoadedEntry(bytes, Entries(kws, 0)[n]) == Some(NormalKeyword(kws[n]))
  {
    hide FileBytes, Entries, EntryOf, KeywordBytes, LoadedEntry, At, Strip, NormalKeyword, Keywords.Valid, Matches;
    EntryPointsInto(bytes, kws, n);
    LoadsWhereItPoints(bytes, Entries(kws, 0)[n], kws[n]);
  }

  lemma EntryPointsInto(bytes: seq<Byte>, kws: seq<Keyword>, n: nat)
    requires AllValid(kws) && n < |kws| && FileBytes(kws) <= bytes
    ensures At(bytes, Entries(kws, 0)[n].offset, KeywordBytes(kws[n])) && Matches(Entries(kws, 0)[n], kws[n])
  {
    hide FileBytes, Entries, EntryOf, KeywordBytes, Strip, Keywords.Valid, Matches;
    EntryPointsAt(kws, 0, n);
    FrontStands(bytes, FileBytes(kws));
    AtPart(bytes, 0, FileBytes(kws), Entries(kws, 0)[n].offset, KeywordBytes(kws[n]));
  }

  lemma FrontStands(bytes: seq<Byte>, front: seq<Byte>)
    requires front <= bytes
    ensures At(bytes, 0, front)
  {
  }

  /** One keyword of a file; it is loaded when it is first asked for. */
  class FileKW {
    const entry: Entry
    var kw: Option<Keyword>

    constructor (entry: Entry)
      ensures this.entry == entry && kw == None
    {
      this.entry, kw := entry, None;
    }

    /** What has been loaded is what the file holds. */
    ghost predicate Consistent(bytes: seq<Byte>)
      reads this`kw
    {
      kw.Some? ==> LoadedEntry(bytes, entry) == kw
    }

    /** Refuses a keyword that has not been loaded or does not agree with the file. */
    predicate AssertKw()
      reads this`kw
    {
      kw.Some? && Matches(entry, kw.value)
    }

    method LoadKw(io: FortIO) returns (ok: bool)
      requires io.writable || |io.bytes| <= io.readSize
      modifies this`kw, io`pos
      ensures ok == LoadedEntry(io.bytes, entry).Some?
      ensures ok ==> kw == LoadedEntry(io.bytes, entry)
    {
      hide KeywordAt, Strip;
      var start := io.pos;
      var moved := io.Fseek(entry.offset, FromStart);
      if !moved {
        BehindTheEnd(io.bytes, entry.offset);
        return false;
      }
      var r := FreadAlloc(io);
      kw := if r.Loaded? then Some(r.kw) else None;
      ok := AssertKw();
    }

    method GetKw(io: FortIO) returns (ok: bool)
      requires Consistent(io.bytes) && (io.writable || |io.bytes| <= io.readSize)
      modifies this`kw, io`pos
      ensures ok == LoadedEntry(io.bytes, entry).Some?
      ensures ok ==> kw == LoadedEntry(io.bytes, entry)
    {
      if kw.None? {
        ok := LoadKw(io);
      } else {
        ok := true;
      }
    }

    /** Skips the data of the keyword. */
    method SkipData(io: FortIO) returns (ok: bool)
      modifies io`pos
      ensures entry.size <= 0 ==> ok && io.pos == old(io.pos)
      ensures entry.size > 0 ==>
        var target := old(io.pos) + DataSize(entry.dataType, entry.size);
        (ok <==> io.writable || target <= io.readSize) && io.pos == if ok then target else old(io.pos)
    {
      ok := FskipData(entry.dataType, entry.size, io);
    }

    /**
     * Writes the elements of the keyword over those in the file. A keyword that no longer agrees with the file is
     * refused.
     */
    method InplaceWrite(io: FortIO, ghost h: Header) returns (ok: bool)
      requires ValidHeader(h) && At(io.bytes, entry.offset, Record(HeaderBytes(h))) && io.writable
      requires kw.Some? ==> Keywords.Valid(kw.value)
      modifies io`pos, io`bytes
      ensures ok == AssertKw()
      ensures ok ==> io.bytes == Overwrite(old(io.bytes), entry.offset + HEADER_FORTIO_SIZE, DataBytes(kw.value))
      ensures !ok ==> io.bytes == old(io.bytes)
    {
      hide Strip, At, Overwrite, DataBytes, HeaderBytes;
      ok := AssertKw();
      if ok {
        var moved := io.Fseek(entry.offset, FromStart);
        FskipHeader(io);
        FwriteData(kw.value, io);
      }
    }
  }

  lemma BehindTheEnd(bytes: seq<Byte>, pos: nat)
    requires pos > |bytes|
    ensures KeywordAt(bytes, pos) == Missing
  {
  }

  /** Writing the elements of one keyword in place gives the file with that keyword replaced: its length, its
      entries and all other bytes, also those behind the keywords, stay as they are. */
  lemma SavedInPlace(kws: seq<Keyword>, n: nat, kw: Keyword, tail: seq<Byte>)
    requires AllValid(kws) && n < |kws| && Keywords.Valid(kw) && Matches(Entries(kws, 0)[n], kw)
    ensures
      var saved := kw.(header8 := kws[n].header8);
      && Keywords.Valid(saved) && AllValid(kws[n := saved])
      && Overwrite(FileBytes(kws) + tail, Entries(kws, 0)[n].offset + HEADER_FORTIO_SIZE, DataBytes(kw)) ==
           FileBytes(kws[n := saved]) + tail
      && |FileBytes(kws[n := saved])| == |FileBytes(kws)|
      && Entries(kws[n := saved], 0) == Entries(kws, 0)
  {
    hide FileBytes, Entries, EncodeAll, Blocks, Records, Strip, AllFit, KeywordBytes, At, Overwrite, HeaderBytes;
    EntryPointsAt(kws, 0, n);
    var saved := kw.(header8 := kws[n].header8);
    assert saved.GetHeader() == kws[n].GetHeader();
    assert DataBytes(saved) == DataBytes(kw);
    SameEntries(kws, kws[n := saved], 0);
    OnePartReplaced(kws, n, saved, tail);
  }

  lemma OnePartReplaced(kws: seq<Keyword>, n: nat, saved: Keyword, tail: seq<Byte>)
    requires AllValid(kws) && n < |kws| && Keywords.Valid(saved) && saved.GetHeader() == kws[n].GetHeader()
    ensures AllValid(kws[n := saved])
    ensures Overwrite(FileBytes(kws) + tail, |FileBytes(kws[..n])| + HEADER_FORTIO_SIZE, DataBytes(saved)) ==
            FileBytes(kws[n := saved]) + tail
  {
    hide FileBytes, DataBytes, KeywordBytes, HeaderBytes, Record, Keywords.Valid, Overwrite;
    var now := kws[n := saved];
    SplitFile(kws, n);
    SplitFile(now, n);
    assert now[..n] == kws[..n] && now[n + 1..] == kws[n + 1..];
    SizeOfKeyword(kws[n]);
    SizeOfKeyword(saved);
    var before, behind, h := FileBytes(kws[..n]), FileBytes(kws[n + 1..]), kws[n].GetHeader();
    HeaderIsValid(kws[n]);
    ReplacePart(before + Record(HeaderBytes(h)), DataBytes(kws[n]), DataBytes(saved), behind + tail);
    SumOfThree(before + Record(HeaderBytes(h)) + DataBytes(kws[n]), behind, tail);
    SumOfThree(before + Record(HeaderBytes(h)) + DataBytes(saved), behind, tail);
    PartsOfKeyword(before, kws[n], behind);
    PartsOfKeyword(before, saved, behind);
  }

  lemma HeaderIsValid(kw: Keyword)
    requires Keywords.Valid(kw)
    ensures ValidHeader(kw.GetHeader())
  {
  }

  lemma PartsOfKeyword(before: seq<Byte>, kw: Keyword, behind: seq<Byte>)
    requires Keywords.Valid(kw)
    ensures before + KeywordBytes(kw) + behind ==
            (before + Record(HeaderBytes(kw.GetHeader()))) + DataBytes(kw) + behind
  {
    hide Record, HeaderBytes, DataBytes;
    var a, b := Record(HeaderBytes(kw.GetHeader())), DataBytes(kw);
    assert before + (a + b) == (before + a) + b;
  }

  lemma ReplacePart(before: seq<Byte>, part: seq<Byte>, other: seq<Byte>, behind: seq<Byte>)
    requires |part| == |other|
    ensures Overwrite(before + part + behind, |before|, other) == before + other + behind
  {
    var all := before + part + behind;
    if other != [] {
      assert all[..|before|] == before;
      assert all[|before| + |other|..] == behind;
    } else {
      assert part == other;
    }
  }

  lemma SplitFile(kws: seq<Keyword>, n: nat)
    requires AllValid(kws) && n < |kws|
    ensures FileBytes(kws) == FileBytes(kws[..n]) + KeywordBytes(kws[n]) + FileBytes(kws[n + 1..])
  {
    hide KeywordBytes, Keywords.Valid;
    var rest := kws[n..];
    assert kws == kws[..n] + rest;
    assert rest[1..] == kws[n + 1..] && rest[0] == kws[n];
    assert FileBytes(rest) == KeywordBytes(rest[0]) + FileBytes(rest[1..]);
    hide FileBytes;
    FileBytesSum(kws[..n], rest);
    SumOfThree(FileBytes(kws[..n]), KeywordBytes(kws[n]), FileBytes(kws[n + 1..]));
  }

  /** Files whose keywords have the same headers have the same entries and the same length. */
  lemma {:induction false} SameEntries(a: seq<Keyword>, b: seq<Keyword>, pos: nat)
    requires AllValid(a) && AllValid(b) && |a| == |b|
    requires forall i :: 0 <= i < |a| ==> a[i].GetHeader() == b[i].GetHeader()
    ensures Entries(a, pos) == Entries(b, pos) && |FileBytes(a)| == |FileBytes(b)|
    decreases |a|
  {
    hide KeywordBytes, Strip, Keywords.Valid;
    if a != [] {
      assert a[0].GetHeader() == b[0].GetHeader();
      SizeOfKeyword(a[0]);
      SizeOfKeyword(b[0]);
      SameEntries(a[1..], b[1..], pos + |KeywordBytes(a[0])|);
    }
  }
}
