/** Views of the keywords of a file, with an index by name. */
module FileViews {
  import opened Prelude
  import opened Bytes
  import opened FortranIO
  import opened Keywords
  import opened KeywordIO
  import opened FileKeywords

  type Name = seq<Byte>

  /** The positions of a name among the first `m` keywords. */
  ghost function Positions(names: seq<Name>, name: Name, m: nat): seq<nat>
    requires m <= |names|
  {
    if m == 0 then [] else Positions(names, name, m - 1) + if names[m - 1] == name then [m - 1] else []
  }

  /** They are exactly the positions of the name, in ascending order. */
  lemma {:induction false} PositionsMeaning(names: seq<Name>, name: Name, m: nat)
    requires m <= |names|
    ensures forall i :: 0 <= i < m && names[i] == name <==> i in Positions(names, name, m)
    ensures forall a :: 0 <= a < |Positions(names, name, m)| ==> Positions(names, name, m)[a] < m
    ensures forall a, b :: 0 <= a < b < |Positions(names, name, m)| ==>
            Positions(names, name, m)[a] < Positions(names, name, m)[b]
  {
    if m > 0 { PositionsMeaning(names, name, m - 1); }
  }

  lemma PositionsAt(names: seq<Name>, name: Name, m: nat, a: nat)
    requires m <= |names| && a < |Positions(names, name, m)|
    ensures Positions(names, name, m)[a] < m && names[Positions(names, name, m)[a]] == name
  {
    assert Positions(names, name, m)[a] in Positions(names, name, m);
    PositionsMeaning(names, name, m);
  }

  /** Where the next keyword of a name is, from a position on; the end of the list if there is none. */
  ghost function NextNamed(names: seq<Name>, name: Name, from: nat): (stop: nat)
    requires from <= |names|
    ensures from <= stop <= |names| && (stop < |names| ==> names[stop] == name)
    ensures forall i :: from <= i < stop ==> names[i] != name
    decreases |names| - from
  {
    if from == |names| || names[from] == name then from else NextNamed(names, name, from + 1)
  }

  /** The index after the first `m` keywords: every name that occurs has its positions. */
  ghost predicate IndexOf(names: seq<Name>, m: nat, index: map<Name, seq<nat>>)
    requires m <= |names|
  {
    && (forall name :: name in index <==> Positions(names, name, m) != [])
    && (forall name :: name in index ==> index[name] == Positions(names, name, m))
  }

  /** The names among the first `m` keywords, each once, in the order in which they occur first. */
  ghost predicate ListsNames(names: seq<Name>, m: nat, listed: seq<Name>)
    requires m <= |names|
  {
    && (forall name :: name in listed <==> NextNamed(names, name, 0) < m)
    && (forall a, b :: 0 <= a < b < |listed| ==> NextNamed(names, listed[a], 0) < NextNamed(names, listed[b], 0))
  }

  lemma IndexStep(names: seq<Name>, i: nat, index: map<Name, seq<nat>>)
    requires i < |names| && IndexOf(names, i, index)
    ensures
      var name := names[i];
      IndexOf(names, i + 1, index[name := (if name in index then index[name] else []) + [i]])
  {
    var name := names[i];
    var next := index[name := (if name in index then index[name] else []) + [i]];
    forall other: Name
      ensures other in next <==> Positions(names, other, i + 1) != []
      ensures other in next ==> next[other] == Positions(names, other, i + 1)
    {
    }
  }

  lemma ListStep(names: seq<Name>, i: nat, listed: seq<Name>)
    requires i < |names| && ListsNames(names, i, listed)
    ensures
      if names[i] in listed then ListsNames(names, i + 1, listed) else ListsNames(names, i + 1, listed + [names[i]])
  {
    hide NextNamed;
    var name := names[i];
    forall other: Name | NextNamed(names, other, 0) == i ensures other == name {}
    var next := if name in listed then listed else listed + [name];
    assert NextNamed(names, name, 0) <= i;
    forall a | 0 <= a < |listed| ensures NextNamed(names, listed[a], 0) < i { assert listed[a] in listed; }
    forall other: Name ensures other in next <==> NextNamed(names, other, 0) < i + 1 {
      if other == name {} else { assert other in next <==> other in listed; }
    }
  }

  lemma NothingListed(names: seq<Name>)
    ensures IndexOf(names, 0, map[]) && ListsNames(names, 0, [])
  {
  }

  lemma SameNames(names: seq<Name>, i: nat, index: map<Name, seq<nat>>, listed: seq<Name>, name: Name)
    requires i <= |names| && IndexOf(names, i, index) && ListsNames(names, i, listed)
    ensures name in index <==> name in listed
  {
    var first := NextNamed(names, name, 0);
    PositionsMeaning(names, name, i);
    if first < i {
      assert names[first] == name;
      assert first in Positions(names, name, i);
    }
    if name in index {
      PositionsAt(names, name, i, 0);
    }
  }

  /** The names of the listed keywords. */
  function Names(list: seq<FileKW>): (names: seq<Name>)
    ensures |names| == |list| && forall i :: 0 <= i < |list| ==> names[i] == list[i].entry.name
  {
    seq(|list|, i requires 0 <= i < |list| => list[i].entry.name)
  }

  function EndOfBlock(starts: seq<nat>, size: nat, b: nat): nat
    requires b < |starts|
  {
    if b + 1 < |starts| then starts[b + 1] else size
  }

  /** The header of a block: the first of the headers that lies in it. */
  ghost predicate IsHeader(starts: seq<nat>, headers: seq<nat>, size: nat, b: nat, h: nat)
    requires b < |starts|
  {
    && h < |headers| && starts[b] <= headers[h] < EndOfBlock(starts, size, b)
    && forall k :: 0 <= k < h ==> headers[k] < starts[b]
  }

  ghost predicate BlockHolds(starts: seq<nat>, headers: seq<nat>, size: nat, b: nat, holds: nat -> bool) {
    b < |starts| && exists h: nat :: IsHeader(starts, headers, size, b, h) && holds(headers[h])
  }

  /** Goes through the blocks and the headers side by side. */
  method SearchBlocks(starts: seq<nat>, headers: seq<nat>, size: nat, holds: nat -> bool) returns (block: Option<nat>)
    requires forall a, b :: 0 <= a < b < |starts| ==> starts[a] < starts[b]
    requires forall a, b :: 0 <= a < b < |headers| ==> headers[a] < headers[b]
    ensures block.Some? ==> BlockHolds(starts, headers, size, block.value, holds)
    ensures block.Some? ==> forall b :: 0 <= b < block.value ==> !BlockHolds(starts, headers, size, b, holds)
    ensures block.None? ==> forall b :: 0 <= b < |starts| ==> !BlockHolds(starts, headers, size, b, holds)
  {
    hide BlockHolds, EndOfBlock;
    var cursor := 0;
    for b := 0 to |starts|
      invariant cursor <= |headers|
      invariant forall h :: 0 <= h < cursor ==> b > 0 && headers[h] < starts[b - 1]
      invariant forall c :: 0 <= c < b ==> !BlockHolds(starts, headers, size, c, holds)
    {
      while cursor < |headers| && headers[cursor] < starts[b]
        invariant cursor <= |headers| && forall h :: 0 <= h < cursor ==> headers[h] < starts[b]
      {
        cursor := cursor + 1;
      }
      if cursor == |headers| {
        forall c | b <= c < |starts| ensures !BlockHolds(starts, headers, size, c, holds) {
          NoHeaderLeft(starts, headers, size, c, holds);
        }
        return None;
      }
      FirstHeader(starts, headers, size, b, cursor, holds);
      if headers[cursor] < EndOfBlock(starts, size, b) && holds(headers[cursor]) {
        return Some(b);
      }
    }
    block := None;
  }

  lemma NoHeaderLeft(starts: seq<nat>, headers: seq<nat>, size: nat, b: nat, holds: nat -> bool)
    requires b < |starts| && forall h :: 0 <= h < |headers| ==> headers[h] < starts[b]
    ensures !BlockHolds(starts, headers, size, b, holds)
  {
  }

  lemma FirstHeader(starts: seq<nat>, headers: seq<nat>, size: nat, b: nat, cursor: nat, holds: nat -> bool)
    requires b < |starts| && cursor < |headers| && starts[b] <= headers[cursor]
    requires forall h :: 0 <= h < cursor ==> headers[h] < starts[b]
    requires forall k, l :: 0 <= k < l < |headers| ==> headers[k] < headers[l]
    ensures BlockHolds(starts, headers, size, b, holds) <==>
            headers[cursor] < EndOfBlock(starts, size, b) && holds(headers[cursor])
  {
    if headers[cursor] < EndOfBlock(starts, size, b) {
      assert IsHeader(starts, headers, size, b, cursor);
    }
    forall h: nat | IsHeader(starts, headers, size, b, h) ensures h == cursor {}
  }

  /** The positions of a name end a block where its next position is, or where the list ends. */
  lemma BlockEndsAtNext(names: seq<Name>, name: Name, b: nat)
    requires b < |Positions(names, name, |names|)|
    ensures Positions(names, name, |names|)[b] < |names|
    ensures NextNamed(names, name, Positions(names, name, |names|)[b] + 1) ==
            EndOfBlock(Positions(names, name, |names|), |names|, b)
  {
    var starts := Positions(names, name, |names|);
    PositionsMeaning(names, name, |names|);
    PositionsAt(names, name, |names|, b);
    hide Positions, NextNamed;
    var stop := NextNamed(names, name, starts[b] + 1);
    if stop < |names| {
      assert names[stop] == name;
      assert stop in starts;
      var c :| 0 <= c < |starts| && starts[c] == stop;
      assert c > b;
    }
    if b + 1 < |starts| {
      PositionsAt(names, name, |names|, b + 1);
      assert starts[b] < starts[b + 1];
    }
  }

  /**
   * The names of the block that `Blockview` cuts out for occurrence `b` of a name: there is a header among them, and
   * the first one satisfies the condition.
   */
  ghost predicate ViewHolds(names: seq<Name>, startKw: Name, headerKw: Name, b: nat, holds: nat -> bool) {
    var starts := Positions(names, startKw, |names|);
    b < |starts| &&
    (PositionsAt(names, startKw, |names|, b);
     var start := starts[b];
     var part := names[start..NextNamed(names, startKw, start + 1)];
     NextNamed(part, headerKw, 0) < |part| && holds(start + NextNamed(part, headerKw, 0)))
  }

  /** A header in the part of a list that a block takes up: the first one there is the header of the block. */
  lemma HeaderOfPart(names: seq<Name>, starts: seq<nat>, headerKw: Name, b: nat) returns (h: nat)
    requires b < |starts| && starts[b] <= EndOfBlock(starts, |names|, b) <= |names|
    requires
      var part := names[starts[b]..EndOfBlock(starts, |names|, b)];
      NextNamed(part, headerKw, 0) < |part|
    ensures
      var part := names[starts[b]..EndOfBlock(starts, |names|, b)];
      var headers := Positions(names, headerKw, |names|);
      IsHeader(starts, headers, |names|, b, h) && headers[h] == starts[b] + NextNamed(part, headerKw, 0)
  {
    PositionsMeaning(names, headerKw, |names|);
    hide Positions, EndOfBlock, NextNamed;
    var headers, start := Positions(names, headerKw, |names|), starts[b];
    var part := names[start..EndOfBlock(starts, |names|, b)];
    var first := NextNamed(part, headerKw, 0);
    assert part[first] == names[start + first];
    assert start + first in headers;
    h :| 0 <= h < |headers| && headers[h] == start + first;
    forall k | 0 <= k < h ensures headers[k] < start {
      assert headers[k] in headers;
      if headers[k] >= start { NotBeforeFirst(names, start, |part|, headerKw, headers[k]); }
    }
  }

  lemma NotBeforeFirst(names: seq<Name>, start: nat, size: nat, name: Name, i: nat)
    requires start + size <= |names| && start <= i < start + NextNamed(names[start..start + size], name, 0)
    ensures names[i] != name
  {
    hide NextNamed;
    assert names[start..start + size][i - start] == names[i];
  }

  /** The header of a block lies in its part of the list, so there is one there. */
  lemma PartOfHeader(names: seq<Name>, starts: seq<nat>, headerKw: Name, b: nat, h: nat)
    requires b < |starts| && starts[b] <= EndOfBlock(starts, |names|, b) <= |names|
    requires IsHeader(starts, Positions(names, headerKw, |names|), |names|, b, h)
    ensures
      var part := names[starts[b]..EndOfBlock(starts, |names|, b)];
      NextNamed(part, headerKw, 0) < |part|
  {
    PositionsMeaning(names, headerKw, |names|);
    hide Positions, EndOfBlock, NextNamed;
    var headers, start := Positions(names, headerKw, |names|), starts[b];
    var part := names[start..EndOfBlock(starts, |names|, b)];
    assert headers[h] in headers;
    assert part[headers[h] - start] == headerKw;
  }

  /** A block has one header. */
  lemma OneHeader(starts: seq<nat>, headers: seq<nat>, size: nat, b: nat, g: nat, h: nat)
    requires b < |starts| && IsHeader(starts, headers, size, b, g) && IsHeader(starts, headers, size, b, h)
    ensures g == h
  {
  }

  /** The blocks that are searched are those that `Blockview` cuts out. */
  lemma BlockHoldsInView(names: seq<Name>, startKw: Name, headerKw: Name, b: nat, holds: nat -> bool)
    ensures BlockHolds(Positions(names, startKw, |names|), Positions(names, headerKw, |names|), |names|, b, holds) <==>
            ViewHolds(names, startKw, headerKw, b, holds)
  {
    hide Positions, EndOfBlock, NextNamed, IsHeader;
    var starts, headers := Positions(names, startKw, |names|), Positions(names, headerKw, |names|);
    if b < |starts| {
      BlockEndsAtNext(names, startKw, b);
      var part := names[starts[b]..NextNamed(names, startKw, starts[b] + 1)];
      if NextNamed(part, headerKw, 0) < |part| {
        var h := HeaderOfPart(names, starts, headerKw, b);
        forall g: nat | IsHeader(starts, headers, |names|, b, g) ensures g == h {
          OneHeader(starts, headers, |names|, b, g, h);
        }
      } else {
        forall g: nat | IsHeader(starts, headers, |names|, b, g) ensures false {
          PartOfHeader(names, starts, headerKw, b, g);
        }
      }
    }
  }

  class FileView {
    var kwList: seq<FileKW>
    var kwIndex: map<Name, seq<nat>>
    var distinctKw: seq<Name>

    /** A view of the listed keywords, without an index. */
    constructor (list: seq<FileKW>)
      ensures kwList == list
    {
      kwList, kwIndex, distinctKw := list, map[], [];
    }

    /** The index lists the positions of every name. */
    ghost predicate IsIndexed()
      reads this
    {
      IndexOf(Names(kwList), |kwList|, kwIndex) && ListsNames(Names(kwList), |kwList|, distinctKw)
    }

    method AddKw(kw: FileKW)
      modifies this`kwList
      ensures kwList == old(kwList) + [kw]
    {
      kwList := kwList + [kw];
    }

    method MakeIndex()
      modifies this`kwIndex, this`distinctKw
      ensures IsIndexed()
    {
      hide Names, IndexOf, ListsNames;
      distinctKw, kwIndex := [], map[];
      ghost var names := Names(kwList);
      NothingListed(names);
      for i := 0 to |kwList|
        invariant IndexOf(names, i, kwIndex) && ListsNames(names, i, distinctKw)
      {
        var name := kwList[i].entry.name;
        ghost var before := kwIndex;
        IndexStep(names, i, kwIndex);
        ListStep(names, i, distinctKw);
        SameNames(names, i, kwIndex, distinctKw, name);
        if name !in kwIndex {
          distinctKw := distinctKw + [name];
          kwIndex := kwIndex[name := []];
        }
        kwIndex := kwIndex[name := kwIndex[name] + [i]];
        assert kwIndex == before[name := (if name in before then before[name] else []) + [i]];
      }
    }

    function NumNamedKw(name: Name): nat
      reads this`kwIndex
    {
      if name in kwIndex then |kwIndex[name]| else 0
    }

    /** Which occurrence of its name a keyword is. */
    method GetOccurence(globalIndex: nat) returns (occurence: nat)
      requires IsIndexed() && globalIndex < |kwList|
      ensures
        var positions := Positions(Names(kwList), kwList[globalIndex].entry.name, |kwList|);
        occurence < |positions| && positions[occurence] == globalIndex
    {
      var name := kwList[globalIndex].entry.name;
      ghost var positions := Positions(Names(kwList), name, |kwList|);
      PositionsMeaning(Names(kwList), name, |kwList|);
      assert globalIndex in positions;
      hide Positions, Names;
      var indexVector := kwIndex[name];
      for i := 0 to |indexVector|
        invariant forall k :: 0 <= k < i ==> indexVector[k] != globalIndex
      {
        if indexVector[i] == globalIndex { return i; }
      }
      assert false;
    }

    /** The next keyword of a name from a position on; the end of the list if there is none. */
    method NextKw(name: Name, from: nat) returns (stop: nat)
      requires from <= |kwList|
      ensures from <= stop <= |kwList| && stop == NextNamed(Names(kwList), name, from)
    {
      hide Names;
      stop := from;
      while stop < |kwList| && kwList[stop].entry.name != name
        invariant from <= stop <= |kwList|
        invariant NextNamed(Names(kwList), name, from) == NextNamed(Names(kwList), name, stop)
      {
        stop := stop + 1;
      }
    }

    /**
     * The keywords from an occurrence of one name up to the next one of another; nothing if there is no such
     * occurrence.
     */
    method Blockview(startKw: Option<Name>, endKw: Option<Name>, occurence: nat) returns (block: Option<FileView>)
      requires IsIndexed() && (startKw.None? && endKw.Some? ==> kwList != [])
      ensures block.None? <==> startKw.Some? && |Positions(Names(kwList), startKw.value, |kwList|)| <= occurence
      ensures block.Some? ==> fresh(block.value) && block.value.IsIndexed()
      ensures block.Some? ==>
        var start := if startKw.Some? then Positions(Names(kwList), startKw.value, |kwList|)[occurence] else 0;
        && start <= |kwList| && (endKw.Some? ==> start < |kwList|)
        && block.value.kwList ==
             kwList[start..if endKw.Some? then NextNamed(Names(kwList), endKw.value, start + 1) else |kwList|]
    {
      hide Names, ListsNames;
      if startKw.Some? && NumNamedKw(startKw.value) <= occurence { return None; }
      var begin := if startKw.Some? then kwIndex[startKw.value][occurence] else 0;
      if startKw.Some? { PositionsAt(Names(kwList), startKw.value, |kwList|, occurence); }
      hide Positions, IndexOf;
      var stop := |kwList|;
      if endKw.Some? { stop := NextKw(endKw.value, begin + 1); }
      var view := new FileView(kwList[begin..stop]);
      view.MakeIndex();
      block := Some(view);
    }

    /**
     * The first block whose header keyword satisfies a condition. A block goes from one keyword called `startKw` to the
     * next; its header is the first keyword called `headerKw` inside it.
     */
    method FindBlock(startKw: Name, headerKw: Name, holds: nat -> bool) returns (block: Option<nat>)
      requires IsIndexed()
      ensures
        var starts, headers := Positions(Names(kwList), startKw, |kwList|),
          Positions(Names(kwList), headerKw, |kwList|);
        && (block.Some? ==> BlockHolds(starts, headers, |kwList|, block.value, holds)
                            && forall b :: 0 <= b < block.value ==> !BlockHolds(starts, headers, |kwList|, b, holds))
        && (block.None? ==> forall b :: 0 <= b < |starts| ==> !BlockHolds(starts, headers, |kwList|, b, holds))
      ensures block.Some? ==> ViewHolds(Names(kwList), startKw, headerKw, block.value, holds)
      ensures block.Some? ==>
        forall b :: 0 <= b < block.value ==> !ViewHolds(Names(kwList), startKw, headerKw, b, holds)
      ensures block.None? ==> forall b: nat :: !ViewHolds(Names(kwList), startKw, headerKw, b, holds)
    {
      forall b: nat
        ensures ViewHolds(Names(kwList), startKw, headerKw, b, holds) ==
                BlockHolds(Positions(Names(kwList), startKw, |kwList|), Positions(Names(kwList), headerKw, |kwList|),
                           |kwList|, b, holds)
      {
        BlockHoldsInView(Names(kwList), startKw, headerKw, b, holds);
      }
      hide ViewHolds;
      if startKw !in kwIndex || headerKw !in kwIndex {
        return None;
      }
      PositionsMeaning(Names(kwList), startKw, |kwList|);
      PositionsMeaning(Names(kwList), headerKw, |kwList|);
      hide Positions, Names, ListsNames, BlockHolds;
      block := SearchBlocks(kwIndex[startKw], kwIndex[headerKw], |kwList|, holds);
    }

    /** Nothing has been loaded that the file does not hold. */
    ghost predicate Consistent(bytes: seq<Byte>)
      reads this`kwList, kwList
    {
      forall i :: 0 <= i < |kwList| ==> kwList[i].Consistent(bytes)
    }

    /** Writes the keywords from a position on to another file. */
    method Write(io: FortIO, target: FortIO, offset: nat, ghost kws: seq<Keyword>) returns (ok: bool)
      requires io != target && offset <= |kwList| == |kws|
      requires Consistent(io.bytes) && (io.writable || |io.bytes| <= io.readSize)
      requires AllStand(io.bytes, kwList, kws) && AllValid(kws[offset..])
      modifies kwList, io`pos, target`pos, target`bytes
      ensures Consistent(io.bytes) && ok
      ensures target.bytes == Overwrite(old(target.bytes), old(target.pos), FileBytes(kws[offset..]))
      ensures target.pos == old(target.pos) + |FileBytes(kws[offset..])|
    {
      hide Overwrite, KeywordBytes, FileBytes, LoadedEntry, Stands, AllValid;
      ghost var was, start, bytes := target.bytes, target.pos, io.bytes;
      WriteNothing(kws, offset, was, start);
      for index := offset to |kwList|
        invariant io.bytes == bytes && Consistent(bytes)
        invariant AllValid(kws[offset..index])
        invariant target.bytes == Overwrite(was, start, FileBytes(kws[offset..index]))
        invariant target.pos == start + |FileBytes(kws[offset..index])|
      {
        assert Stands(bytes, kwList[index].entry, kws[index]);
        LoadsStanding(bytes, kwList[index].entry, kws[index]);
        assert kwList[index].Consistent(bytes);
        ok := kwList[index].GetKw(io);
        FwriteKeyword(kwList[index].kw.value, target);
        WriteOneMore(kws, offset, index, was, start);
      }
      assert kws[offset..|kws|] == kws[offset..];
      ok := true;
    }
  }

  /** The keyword stands where the entry points, and agrees with it. */
  ghost predicate Stands(bytes: seq<Byte>, entry: Entry, kw: Keyword) {
    Keywords.Valid(kw) && At(bytes, entry.offset, KeywordBytes(kw)) && Matches(entry, kw)
  }

  ghost predicate AllStand(bytes: seq<Byte>, list: seq<FileKW>, kws: seq<Keyword>)
    requires |list| == |kws|
  {
    forall i :: 0 <= i < |list| ==> Stands(bytes, list[i].entry, kws[i])
  }

  lemma LoadsStanding(bytes: seq<Byte>, entry: Entry, kw: Keyword)
    requires Stands(bytes, entry, kw)
    ensures Keywords.Valid(kw) && LoadedEntry(bytes, entry) == Some(NormalKeyword(kw))
    ensures KeywordBytes(NormalKeyword(kw)) == KeywordBytes(kw)
  {
    hide KeywordBytes, LoadedEntry, KeywordAt, Strip, NormalKeyword, Keywords.Valid;
    LoadsWhereItPoints(bytes, entry, kw);
    KeywordRoundTrip(bytes, entry.offset, kw);
  }

  lemma WriteNothing(kws: seq<Keyword>, offset: nat, was: seq<Byte>, start: nat)
    requires offset <= |kws|
    ensures AllValid(kws[offset..offset]) && FileBytes(kws[offset..offset]) == [] && Overwrite(was, start, []) == was
  {
  }

  lemma WriteOneMore(kws: seq<Keyword>, offset: nat, index: nat, was: seq<Byte>, start: nat)
    requires offset <= index < |kws| && AllValid(kws[offset..index]) && Keywords.Valid(kws[index])
    ensures AllValid(kws[offset..index + 1])
    ensures
      var written := FileBytes(kws[offset..index]);
      && FileBytes(kws[offset..index + 1]) == written + KeywordBytes(kws[index])
      && Overwrite(Overwrite(was, start, written), start + |written|, KeywordBytes(kws[index]))
         == Overwrite(was, start, FileBytes(kws[offset..index + 1]))
  {
    hide KeywordBytes, Overwrite, Keywords.Valid;
    assert kws[offset..index + 1] == kws[offset..index] + [kws[index]];
    FileBytesSum(kws[offset..index], [kws[index]]);
    assert FileBytes([kws[index]]) == KeywordBytes(kws[index]);
    OverwriteTwice(was, start, FileBytes(kws[offset..index]), KeywordBytes(kws[index]));
  }
}
