/** The elements of a keyword, and their bytes in a file. */
module KeywordTypes {
  import opened Prelude
  import opened Bytes
  import opened FortranIO

  datatype DataType = Inte | Real | Doub | Logi | Char | Mess | Str(length: nat)

  /** The bytes of one element in a file. */
  function IoSize(t: DataType): nat {
    match t
    case Inte => 4
    case Real => 4
    case Doub => 8
    case Logi => 4
    case Char => 8
    case Mess => 0
    case Str(length) => length
  }

  predicate IsAlpha(t: DataType) {
    t.Char? || t.Mess? || t.Str?
  }

  predicate IsNumeric(t: DataType) {
    t.Inte? || t.Real? || t.Doub?
  }

  const BLOCKSIZE_NUMERIC: nat := 1000
  const BLOCKSIZE_CHAR: nat := 105

  /** The elements of one record in a file. */
  function BlockSize(t: DataType): nat {
    if IsAlpha(t) then BLOCKSIZE_CHAR else BLOCKSIZE_NUMERIC
  }

  /** The types that a file can hold: a string length has three digits. */
  predicate ValidType(t: DataType) {
    t.Str? ==> 1 <= t.length <= 999
  }

  function TypeName(t: DataType): (name: seq<Byte>)
    requires ValidType(t)
    ensures |name| == 4
  {
    match t
    case Inte => ['I' as int, 'N' as int, 'T' as int, 'E' as int]
    case Real => ['R' as int, 'E' as int, 'A' as int, 'L' as int]
    case Doub => ['D' as int, 'O' as int, 'U' as int, 'B' as int]
    case Logi => ['L' as int, 'O' as int, 'G' as int, 'I' as int]
    case Char => ['C' as int, 'H' as int, 'A' as int, 'R' as int]
    case Mess => ['M' as int, 'E' as int, 'S' as int, 'S' as int]
    case Str(n) => ['C' as int, '0' as int + n / 10 / 10, '0' as int + n / 10 % 10, '0' as int + n % 10]
  }

  predicate IsDigit(b: Byte) {
    '0' as int <= b <= '9' as int
  }

  /** The type with a given name; none if there is no such type. */
  function TypeFromName(name: seq<Byte>): Option<DataType>
    requires |name| == 4
  {
    if name == TypeName(Real) then Some(Real)
    else if name == TypeName(Inte) then Some(Inte)
    else if name == TypeName(Doub) then Some(Doub)
    else if name == TypeName(Char) then Some(Char)
    else if name[0] == 'C' as int && IsDigit(name[1]) && IsDigit(name[2]) && IsDigit(name[3]) then
      Some(Str(100 * (name[1] as int - '0' as int) + 10 * (name[2] as int - '0' as int) +
               (name[3] as int - '0' as int)))
    else if name == TypeName(Mess) then Some(Mess)
    else if name == TypeName(Logi) then Some(Logi)
    else None
  }

  /** A type is found again by its name. */
  lemma TypeRoundTrip(t: DataType)
    requires ValidType(t)
    ensures TypeFromName(TypeName(t)) == Some(t)
  {
    var name := TypeName(t);
    match t {
      case Inte => assert name[0] == 'I' as int;
      case Real => assert name[0] == 'R' as int;
      case Doub => assert name[0] == 'D' as int;
      case Logi => assert name[0] == 'L' as int;
      case Char => assert name[1] == 'H' as int;
      case Mess => assert name[0] == 'M' as int;
      case Str(n) => assert name[0] == 'C' as int && IsDigit(name[1]);
    }
  }

  const SPACE: Byte := 32

  /** A C string: the bytes in front of the first zero. */
  function CString(b: seq<Byte>): (s: seq<Byte>)
    ensures s <= b && 0 !in s
    ensures 0 !in b ==> s == b
  {
    if b == [] || b[0] == 0 then [] else [b[0]] + CString(b[1..])
  }

  /** Spaces up to a given length. */
  function Pad(s: seq<Byte>, n: nat): (r: seq<Byte>)
    requires |s| <= n
    ensures |r| == n && s <= r
    ensures 0 !in s ==> 0 !in r
  {
    s + seq(n - |s|, i => SPACE)
  }

  function Reversed(s: seq<Byte>): (r: seq<Byte>)
    ensures |r| == |s|
  {
    seq(|s|, i requires 0 <= i < |s| => s[|s| - 1 - i])
  }

  lemma ReversedTwice(s: seq<Byte>)
    ensures Reversed(Reversed(s)) == s
  {
  }

  /**
   * An element in memory: the bytes of a number, least significant first; a truth value; the characters of a string.
   */
  datatype Value = Number(native: seq<Byte>) | Logical(on: bool) | Text(chars: seq<Byte>)

  predicate Fits(t: DataType, v: Value) {
    match v
    case Number(native) => IsNumeric(t) && |native| == IoSize(t)
    case Logical(_) => t == Logi
    case Text(chars) => IsAlpha(t) && |chars| <= IoSize(t) && 0 !in chars
  }

  const BOOL_TRUE := -1
  const BOOL_FALSE := 0

  /** The bytes of an element in a file: numbers most significant byte first, strings padded with spaces. */
  function Encode(t: DataType, v: Value): (b: seq<Byte>)
    requires Fits(t, v)
    ensures |b| == IoSize(t)
  {
    match v
    case Number(native) => Reversed(native)
    case Logical(on) => EncodeInt(if on then BOOL_TRUE else BOOL_FALSE)
    case Text(chars) => Pad(chars, IoSize(t))
  }

  function Decode(t: DataType, b: seq<Byte>): (v: Value)
    requires |b| == IoSize(t)
    ensures Fits(t, v)
  {
    if t == Logi then Logical(DecodeInt(b) == BOOL_TRUE)
    else if IsAlpha(t) then Text(CString(b))
    else Number(Reversed(b))
  }

  /** An element as it comes back from a file: strings have their full length. */
  function Normal(t: DataType, v: Value): (r: Value)
    requires Fits(t, v)
    ensures Fits(t, r)
  {
    if v.Text? then Text(Pad(v.chars, IoSize(t))) else v
  }

  lemma ValueRoundTrip(t: DataType, v: Value)
    requires Fits(t, v)
    ensures Decode(t, Encode(t, v)) == Normal(t, v)
    ensures Encode(t, Normal(t, v)) == Encode(t, v)
  {
    match v {
      case Number(native) => ReversedTwice(native);
      case Logical(on) => IntRoundTrip(if on then BOOL_TRUE else BOOL_FALSE);
      case Text(chars) =>
    }
  }

  /** The product, by repeated addition. */
  function Times(n: nat, size: nat): nat {
    if n == 0 then 0 else Times(n - 1, size) + size
  }

  lemma {:induction false} TimesIsProduct(n: nat, size: nat)
    ensures Times(n, size) == n * size
  {
    if n > 0 {
      TimesIsProduct(n - 1, size);
      assert n * size == (n - 1) * size + size;
    }
  }

  /** Pieces of one length. */
  ghost predicate Uniform(pieces: seq<seq<Byte>>, size: nat) {
    forall i :: 0 <= i < |pieces| ==> |pieces[i]| == size
  }

  /** Cuts bytes into pieces of one length. */
  function Cut(n: nat, size: nat, b: seq<Byte>): (pieces: seq<seq<Byte>>)
    requires |b| == Times(n, size)
    ensures |pieces| == n && Uniform(pieces, size)
  {
    if n == 0 then [] else [b[..size]] + Cut(n - 1, size, b[size..])
  }

  /** Cutting undoes joining. */
  lemma {:induction false} CutJoined(pieces: seq<seq<Byte>>, size: nat)
    requires Uniform(pieces, size)
    ensures |Joined(pieces)| == Times(|pieces|, size) && Cut(|pieces|, size, Joined(pieces)) == pieces
  {
    if pieces != [] {
      CutJoined(pieces[1..], size);
      assert Joined(pieces)[size..] == Joined(pieces[1..]);
    }
  }

  /** Each piece stands at its own place. */
  lemma {:induction false} PieceAt(pieces: seq<seq<Byte>>, size: nat, i: nat)
    requires Uniform(pieces, size) && i < |pieces|
    ensures At(Joined(pieces), Times(i, size), pieces[i])
  {
    if i > 0 {
      PieceAt(pieces[1..], size, i - 1);
      ShiftedAt(pieces[0], Joined(pieces[1..]), Times(i - 1, size), pieces[i]);
    }
  }

  lemma ShiftedAt(a: seq<Byte>, b: seq<Byte>, pos: nat, chunk: seq<Byte>)
    requires At(b, pos, chunk)
    ensures At(a + b, |a| + pos, chunk)
  {
    assert (a + b)[|a| + pos..|a| + pos + |chunk|] == b[pos..pos + |chunk|];
  }

  lemma {:induction false} JoinedAppend(pieces: seq<seq<Byte>>, more: seq<Byte>)
    ensures Joined(pieces + [more]) == Joined(pieces) + more
  {
    if pieces == [] {
      assert Joined([more]) == more + Joined([]);
    } else {
      assert (pieces + [more])[1..] == pieces[1..] + [more];
      JoinedAppend(pieces[1..], more);
    }
  }

  ghost predicate AllFit(t: DataType, data: seq<Value>) {
    forall i :: 0 <= i < |data| ==> Fits(t, data[i])
  }

  ghost function Encoded(t: DataType, data: seq<Value>): (pieces: seq<seq<Byte>>)
    requires AllFit(t, data)
    ensures |pieces| == |data| && Uniform(pieces, IoSize(t))
  {
    seq(|data|, i requires 0 <= i < |data| => Encode(t, data[i]))
  }

  ghost function Decoded(t: DataType, pieces: seq<seq<Byte>>): (data: seq<Value>)
    requires Uniform(pieces, IoSize(t))
    ensures |data| == |pieces| && AllFit(t, data)
  {
    seq(|pieces|, i requires 0 <= i < |pieces| => Decode(t, pieces[i]))
  }

  /** The elements one after the other. */
  ghost function EncodeAll(t: DataType, data: seq<Value>): (b: seq<Byte>)
    requires AllFit(t, data)
    ensures |b| == Times(|data|, IoSize(t))
  {
    CutJoined(Encoded(t, data), IoSize(t));
    Joined(Encoded(t, data))
  }

  ghost function DecodeAll(t: DataType, n: nat, b: seq<Byte>): (data: seq<Value>)
    requires |b| == Times(n, IoSize(t))
    ensures AllFit(t, data) && |data| == n
  {
    Decoded(t, Cut(n, IoSize(t), b))
  }

  ghost function NormalAll(t: DataType, data: seq<Value>): (r: seq<Value>)
    requires AllFit(t, data)
    ensures |r| == |data| && AllFit(t, r)
  {
    seq(|data|, i requires 0 <= i < |data| => Normal(t, data[i]))
  }

  /** Decoding the elements gives them back; encoding them again gives the same bytes. */
  lemma DataRoundTrip(t: DataType, data: seq<Value>)
    requires AllFit(t, data)
    ensures DecodeAll(t, |data|, EncodeAll(t, data)) == NormalAll(t, data)
    ensures EncodeAll(t, NormalAll(t, data)) == EncodeAll(t, data)
  {
    hide Encode, Decode, Normal, Fits, IoSize, Cut, Joined;
    CutJoined(Encoded(t, data), IoSize(t));
    forall i | 0 <= i < |data|
      ensures Encoded(t, NormalAll(t, data))[i] == Encoded(t, data)[i]
      ensures Decoded(t, Encoded(t, data))[i] == NormalAll(t, data)[i]
    {
      ValueRoundTrip(t, data[i]);
    }
    assert Encoded(t, NormalAll(t, data)) == Encoded(t, data);
    assert Decoded(t, Encoded(t, data)) == NormalAll(t, data);
  }

  /** Each element stands at its own place. */
  lemma ElementAt(t: DataType, data: seq<Value>, i: nat)
    requires AllFit(t, data) && i < |data|
    ensures At(EncodeAll(t, data), Times(i, IoSize(t)), Encode(t, data[i]))
  {
    hide Encode, Fits, IoSize, At, Joined;
    PieceAt(Encoded(t, data), IoSize(t), i);
  }

  /** Fills the buffer that is written to a file. */
  method AllocOutputBuffer(t: DataType, data: seq<Value>) returns (buffer: seq<Byte>)
    requires AllFit(t, data)
    ensures buffer == EncodeAll(t, data)
  {
    hide Encode, Fits, IoSize;
    buffer := [];
    for i := 0 to |data|
      invariant buffer == Joined(Encoded(t, data)[..i])
    {
      JoinedAppend(Encoded(t, data)[..i], Encode(t, data[i]));
      assert Encoded(t, data)[..i + 1] == Encoded(t, data)[..i] + [Encode(t, data[i])];
      buffer := buffer + Encode(t, data[i]);
    }
    assert Encoded(t, data)[..|data|] == Encoded(t, data);
  }

  /** Takes the elements out of a buffer that was read from a file. */
  method LoadFromInputBuffer(t: DataType, size: nat, buffer: seq<Byte>) returns (data: seq<Value>)
    requires |buffer| == Times(size, IoSize(t))
    ensures data == DecodeAll(t, size, buffer)
  {
    hide Decode, IoSize, Fits;
    data := [];
    ghost var pieces := Cut(size, IoSize(t), buffer);
    JoinedCut(size, IoSize(t), buffer);
    var done := 0;
    for i := 0 to size
      invariant done == Times(i, IoSize(t)) && data == Decoded(t, pieces)[..i]
    {
      PieceAt(pieces, IoSize(t), i);
      data := data + [Decode(t, buffer[done..done + IoSize(t)])];
      done := done + IoSize(t);
    }
    assert Decoded(t, pieces)[..size] == Decoded(t, pieces);
  }

  /** Joining undoes cutting. */
  lemma {:induction false} JoinedCut(n: nat, size: nat, b: seq<Byte>)
    requires |b| == Times(n, size)
    ensures Joined(Cut(n, size, b)) == b
  {
    if n > 0 { JoinedCut(n - 1, size, b[size..]); }
  }
}
