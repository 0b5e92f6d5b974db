/** Saving what a view knows about the keywords of a file, and reading it again. */
module FileIndex {
  import opened Prelude
  import opened Bytes
  import opened KeywordTypes
  import opened Keywords
  import opened FileKeywords
  import opened FileViews
  import opened FileScan
  import opened FileLayout

  /** A number as `n` bytes, least significant byte first. */
  function EncodeNat(x: nat, n: nat): (b: seq<Byte>)
    ensures |b| == n
  {
    if n == 0 then [] else [x % 0x100] + EncodeNat(x / 0x100, n - 1)
  }

  function DecodeNat(b: seq<Byte>): nat {
    if b == [] then 0 else 0x100 * DecodeNat(b[1..]) + b[0] as nat
  }

  function Power256(n: nat): nat {
    if n == 0 then 1 else 0x100 * Power256(n - 1)
  }

  lemma {:induction false} NatRoundTrip(x: nat, n: nat)
    requires x < Power256(n)
    ensures DecodeNat(EncodeNat(x, n)) == x
  {
    if n > 0 {
      NatRoundTrip(x / 0x100, n - 1);
      assert EncodeNat(x, n)[1..] == EncodeNat(x / 0x100, n - 1);
    }
  }

  function TypeCode(t: DataType): nat {
    match t
    case Char => 0
    case Real => 1
    case Doub => 2
    case Inte => 3
    case Logi => 4
    case Mess => 5
    case Str(_) => 7
  }

  /** The type with a given code and element size; none if they do not fit together. */
  function CreateType(code: int, size: nat): Option<DataType> {
    if code == 7 then Some(Str(size))
    else if code == 0 && size == IoSize(Char) then Some(Char)
    else if code == 1 && size == IoSize(Real) then Some(Real)
    else if code == 2 && size == IoSize(Doub) then Some(Doub)
    else if code == 3 && size == IoSize(Inte) then Some(Inte)
    else if code == 4 && size == IoSize(Logi) then Some(Logi)
    else if code == 5 && size == IoSize(Mess) then Some(Mess)
    else None
  }

  /** An entry that the index can hold: the offset fits eight bytes and the name its field. */
  ghost predicate Indexable(e: Entry) {
    |e.name| <= HEADER_LENGTH && FitsInt32(e.size) && e.offset < Power256(8) && IoSize(e.dataType) < Power256(8)
  }

  const ENTRY_SIZE := 32

  function EncodeEntry(e: Entry): (b: seq<Byte>)
    requires |e.name| <= HEADER_LENGTH && FitsInt32(e.size)
    ensures |b| == ENTRY_SIZE
  {
    Pad(e.name, HEADER_LENGTH) + Reversed(EncodeInt(e.size)) + EncodeNat(e.offset, 8)
    + Reversed(EncodeInt(TypeCode(e.dataType))) + EncodeNat(IoSize(e.dataType), 8)
  }

  /** The bytes in front of the first space. */
  function BeforeSpace(s: seq<Byte>): seq<Byte> {
    if s == [] || s[0] == SPACE then [] else [s[0]] + BeforeSpace(s[1..])
  }

  function DecodeEntry(b: seq<Byte>): Option<Entry>
    requires |b| == ENTRY_SIZE
  {
    match CreateType(DecodeInt(Reversed(b[20..24])), DecodeNat(b[24..32]))
    case None => None
    case Some(t) => Some(Entry(DecodeNat(b[12..20]), t, DecodeInt(Reversed(b[8..12])), BeforeSpace(b[..8])))
  }

  lemma {:induction false} PaddedBeforeSpace(name: seq<Byte>, n: nat)
    requires |name| <= n
    ensures BeforeSpace(Pad(name, n)) == BeforeSpace(name)
  {
    if name != [] && name[0] != SPACE {
      assert Pad(name, n)[1..] == Pad(name[1..], n - 1);
      PaddedBeforeSpace(name[1..], n - 1);
    }
  }

  lemma {:induction false} BeforeSpaceMeaning(s: seq<Byte>)
    ensures BeforeSpace(s) == s <==> SPACE !in s
  {
    if s != [] && s[0] != SPACE {
      BeforeSpaceMeaning(s[1..]);
      assert s == [s[0]] + s[1..];
    }
  }

  /** An entry comes back from the index, but its name ends at the first space. */
  lemma EntryRoundTrip(e: Entry)
    requires Indexable(e)
    ensures DecodeEntry(EncodeEntry(e)) == Some(e.(name := BeforeSpace(e.name)))
  {
    hide Pad, EncodeInt, DecodeInt, EncodeNat, DecodeNat, Reversed, BeforeSpace, Power256;
    var b := EncodeEntry(e);
    assert b[..8] == Pad(e.name, HEADER_LENGTH) && b[8..12] == Reversed(EncodeInt(e.size));
    assert b[12..20] == EncodeNat(e.offset, 8);
    assert b[20..24] == Reversed(EncodeInt(TypeCode(e.dataType))) && b[24..32] == EncodeNat(IoSize(e.dataType), 8);
    PaddedBeforeSpace(e.name, HEADER_LENGTH);
    ReversedTwice(EncodeInt(e.size));
    ReversedTwice(EncodeInt(TypeCode(e.dataType)));
    IntRoundTrip(e.size);
    IntRoundTrip(TypeCode(e.dataType));
    NatRoundTrip(e.offset, 8);
    NatRoundTrip(IoSize(e.dataType), 8);
  }

  /** Bytes that give a number, the first of them with the smallest weight. */
  function LowFirst(b: seq<Byte>): nat {
    if b == [] then 0 else b[0] as nat + 256 * LowFirst(b[1..])
  }

  /** The number of a type: strings of eight characters, floats, doubles, integers, truth values, messages, strings. */
  predicate NumberOfType(t: DataType, code: int) {
    match t
    case Char => code == 0
    case Real => code == 1
    case Doub => code == 2
    case Inte => code == 3
    case Logi => code == 4
    case Mess => code == 5
    case Str(_) => code == 7
  }

  /** A number and a size stand for a type just when they are those of the type. */
  lemma TypeOfNumber(code: int, size: nat, t: DataType)
    ensures CreateType(code, size) == Some(t) <==> NumberOfType(t, code) && Width(t) == size
  {
  }

  lemma {:induction false} NatLowFirst(x: nat, n: nat)
    requires x < Power256(n)
    ensures LowFirst(EncodeNat(x, n)) == x
  {
    if n > 0 {
      NatLowFirst(x / 0x100, n - 1);
      assert EncodeNat(x, n)[1..] == EncodeNat(x / 0x100, n - 1);
    }
  }

  lemma IntLowFirst(n: int)
    requires FitsInt32(n)
    ensures LowFirst(Reversed(EncodeInt(n))) == if n < 0 then n + 4294967296 else n
  {
    IntBytes(n);
    hide EncodeInt;
    var b := Reversed(EncodeInt(n));
    assert LowFirst(b[4..]) == 0;
    assert b[3..][1..] == b[4..] && b[2..][1..] == b[3..] && b[1..][1..] == b[2..];
    assert LowFirst(b[3..]) == b[3] as nat && LowFirst(b[2..]) == b[2] as nat + 256 * LowFirst(b[3..]);
    assert LowFirst(b[1..]) == b[1] as nat + 256 * LowFirst(b[2..]);
  }

  /**
   * The 32 bytes of an entry: the name with spaces behind it, and then, each with the least significant byte first, the
   * number of elements, the offset, the number of the type and the size of an element.
   */
  lemma EntryLayout(e: Entry)
    requires Indexable(e)
    ensures
      var b := EncodeEntry(e);
      && |b| == 32 && (forall k :: 0 <= k < 8 ==> b[k] == if k < |e.name| then e.name[k] else 32)
      && LowFirst(b[8..12]) == (if e.size < 0 then e.size + 4294967296 else e.size) && LowFirst(b[12..20]) == e.offset
      && NumberOfType(e.dataType, LowFirst(b[20..24])) && LowFirst(b[24..32]) == Width(e.dataType)
  {
    var b := EncodeEntry(e);
    hide EncodeInt, EncodeNat, Reversed, LowFirst, Power256;
    var name := Pad(e.name, HEADER_LENGTH);
    assert b[..8] == name && b[8..12] == Reversed(EncodeInt(e.size)) && b[12..20] == EncodeNat(e.offset, 8);
    assert b[20..24] == Reversed(EncodeInt(TypeCode(e.dataType))) && b[24..32] == EncodeNat(IoSize(e.dataType), 8);
    assert forall k :: 0 <= k < 8 ==> b[k] == name[k];
    IntLowFirst(e.size);
    IntLowFirst(TypeCode(e.dataType));
    NatLowFirst(e.offset, 8);
    NatLowFirst(IoSize(e.dataType), 8);
    Sizes(e.dataType);
  }

  /** A keyword called "A B" is called "A" after its index has been read. */
  lemma SpaceCutsName()
    ensures exists e: Entry :: Indexable(e) && DecodeEntry(EncodeEntry(e)) != Some(e)
  {
    var e := Entry(0, Inte, 1, [65, SPACE, 66]);
    assert Power256(8) > 4;
    assert SPACE in e.name;
    BeforeSpaceMeaning(e.name);
    EntryRoundTrip(e);
  }

  ghost predicate AllIndexable(entries: seq<Entry>) {
    forall i :: 0 <= i < |entries| ==> Indexable(entries[i])
  }

  /** The entries one after the other. */
  ghost function EntryBytes(entries: seq<Entry>): (b: seq<Byte>)
    requires AllIndexable(entries)
    ensures |b| == ENTRY_SIZE * |entries|
  {
    if entries == [] then [] else EntryBytes(entries[..|entries|-1]) + EncodeEntry(entries[|entries|-1])
  }

  /** The index of some keywords: how many they are, and their entries. */
  ghost function IndexBytes(entries: seq<Entry>): seq<Byte>
    requires AllIndexable(entries) && FitsInt32(|entries|)
  {
    Reversed(EncodeInt(|entries|)) + EntryBytes(entries)
  }

  method WriteIndex(view: FileView) returns (bytes: seq<Byte>)
    requires AllIndexable(EntriesOf(view.kwList)) && FitsInt32(|view.kwList|)
    ensures bytes == IndexBytes(EntriesOf(view.kwList))
  {
    hide EncodeEntry, Indexable, EncodeInt;
    ghost var entries := EntriesOf(view.kwList);
    bytes := Reversed(EncodeInt(|view.kwList|));
    for i := 0 to |view.kwList|
      invariant bytes == Reversed(EncodeInt(|entries|)) + EntryBytes(entries[..i])
    {
      EntryIsIndexable(entries, i);
      assert entries[..i + 1][..i] == entries[..i];
      bytes := bytes + EncodeEntry(view.kwList[i].entry);
    }
    assert entries[..|entries|] == entries;
  }

  lemma EntryIsIndexable(entries: seq<Entry>, i: nat)
    requires AllIndexable(entries) && i < |entries|
    ensures |entries[i].name| <= HEADER_LENGTH && FitsInt32(entries[i].size) && AllIndexable(entries[..i]) &&
            AllIndexable(entries[..i + 1])
  {
  }

  /** Entry `i` of an index; none if it is not wholly there or names no type. */
  function EntryIn(bytes: seq<Byte>, i: nat): Option<Entry> {
    var pos := 4 + ENTRY_SIZE * i;
    if pos + ENTRY_SIZE > |bytes| then None else DecodeEntry(bytes[pos..pos + ENTRY_SIZE])
  }

  /** Reads an index. A negative count, a missing byte or a type that does not exist is refused. */
  method ReadIndex(bytes: seq<Byte>) returns (view: FileView?)
    ensures view != null ==> fresh(view) && view.IsIndexed()
    ensures view != null <==>
      |bytes| >= 4 && var n := DecodeInt(Reversed(bytes[..4]));
      0 <= n && forall i :: 0 <= i < n ==> EntryIn(bytes, i).Some?
    ensures view != null ==>
      && |view.kwList| == DecodeInt(Reversed(bytes[..4]))
      && forall i :: 0 <= i < |view.kwList| ==> EntryIn(bytes, i) == Some(view.kwList[i].entry)
  {
    hide DecodeInt, EntryIn, Reversed;
    if |bytes| < 4 { return null; }
    var size := DecodeInt(Reversed(bytes[..4]));
    if size < 0 { return null; }
    var list: seq<FileKW> := [];
    for i := 0 to size
      invariant |list| == i
      invariant forall k :: 0 <= k < i ==> EntryIn(bytes, k) == Some(list[k].entry)
    {
      var entry := EntryIn(bytes, i);
      if entry.None? { return null; }
      var kw := new FileKW(entry.value);
      list := list + [kw];
    }
    view := new FileView(list);
    view.MakeIndex();
  }

  lemma {:induction false} EntryInBytes(entries: seq<Entry>, i: nat)
    requires AllIndexable(entries) && i < |entries|
    ensures EntryBytes(entries)[ENTRY_SIZE * i..ENTRY_SIZE * i + ENTRY_SIZE] == EncodeEntry(entries[i])
    decreases |entries|
  {
    hide EncodeEntry, Indexable;
    EntryIsIndexable(entries, |entries| - 1);
    EntryIsIndexable(entries, i);
    if i < |entries| - 1 {
      EntryInBytes(entries[..|entries|-1], i);
      var front := EntryBytes(entries[..|entries|-1]);
      assert EntryBytes(entries)[..|front|] == front;
      assert EntryBytes(entries)[ENTRY_SIZE * i..ENTRY_SIZE * i + ENTRY_SIZE] ==
        front[ENTRY_SIZE * i..ENTRY_SIZE * i + ENTRY_SIZE];
    }
  }

  /** Every part of a written index reads back as its entry. */
  lemma IndexRoundTrip(entries: seq<Entry>, i: nat)
    requires AllIndexable(entries) && FitsInt32(|entries|) && i < |entries|
    ensures
      var bytes := IndexBytes(entries);
      && DecodeInt(Reversed(bytes[..4])) == |entries| && |bytes| == 4 + ENTRY_SIZE * |entries|
      && var read := EntryIn(bytes, i);
         read.Some? && (read.value == entries[i] <==> SPACE !in entries[i].name)
  {
    hide EncodeEntry, DecodeEntry, EncodeInt, DecodeInt, Power256, IoSize;
    var bytes := IndexBytes(entries);
    IntRoundTrip(|entries|);
    ReversedTwice(EncodeInt(|entries|));
    assert bytes[..4] == Reversed(EncodeInt(|entries|));
    EntryInBytes(entries, i);
    assert bytes[4..] == EntryBytes(entries);
    assert bytes[4 + ENTRY_SIZE * i..4 + ENTRY_SIZE * i + ENTRY_SIZE] ==
      EntryBytes(entries)[ENTRY_SIZE * i..ENTRY_SIZE * i + ENTRY_SIZE];
    EntryRoundTrip(entries[i]);
    BeforeSpaceMeaning(entries[i].name);
  }

  /** Saves the index of a view and reads it: the same entries come back just when no name has a space inside. */
  method SaveAndLoad(view: FileView) returns (loaded: FileView?)
    requires AllIndexable(EntriesOf(view.kwList)) && FitsInt32(|view.kwList|)
    ensures loaded != null && loaded.IsIndexed()
    ensures EntriesOf(loaded.kwList) == EntriesOf(view.kwList) <==>
              forall i :: 0 <= i < |view.kwList| ==> SPACE !in view.kwList[i].entry.name
  {
    hide IndexBytes, EntryIn, DecodeInt, Reversed, Indexable, AllIndexable, FileView.IsIndexed;
    ghost var entries := EntriesOf(view.kwList);
    var bytes := WriteIndex(view);
    IndexLength(entries);
    forall i: nat | i < |entries| { IndexRoundTrip(entries, i); }
    loaded := ReadIndex(bytes);
    forall i | 0 <= i < |entries|
      ensures EntriesOf(loaded.kwList)[i] == entries[i] <==> SPACE !in view.kwList[i].entry.name
    {
      assert entries[i] == view.kwList[i].entry;
    }
  }

  lemma IndexLength(entries: seq<Entry>)
    requires AllIndexable(entries) && FitsInt32(|entries|)
    ensures |IndexBytes(entries)| == 4 + ENTRY_SIZE * |entries| &&
            DecodeInt(Reversed(IndexBytes(entries)[..4])) == |entries|
  {
    hide EncodeInt, DecodeInt, EntryBytes;
    IntRoundTrip(|entries|);
    ReversedTwice(EncodeInt(|entries|));
    assert IndexBytes(entries)[..4] == Reversed(EncodeInt(|entries|));
  }
}
