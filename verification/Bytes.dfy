/** Bytes of a file: big-endian integers, and chunks of bytes at a position. */
module Bytes {
  type Byte = b: int | 0 <= b < 256

  const MAX_INT32 := 0x7FFF_FFFF

  predicate FitsInt32(n: int) {
    -MAX_INT32 - 1 <= n <= MAX_INT32
  }

  /** The number with the given base-256 digits. */
  function Unsigned(a: int, b: int, c: int, d: int): int {
    0x100_0000 * a + 0x1_0000 * b + 0x100 * c + d
  }

  /** The four bytes of an integer, most significant byte first. */
  function EncodeInt(n: int): (b: seq<Byte>)
    requires FitsInt32(n)
    ensures |b| == 4
  {
    var u := if n < 0 then n + 0x1_0000_0000 else n;
    var high := u / 0x100;
    var higher := high / 0x100;
    [higher / 0x100, higher % 0x100, high % 0x100, u % 0x100]
  }

  function DecodeInt(b: seq<Byte>): (n: int)
    requires |b| == 4
    ensures FitsInt32(n)
  {
    var u := Unsigned(b[0], b[1], b[2], b[3]);
    if u > MAX_INT32 then u - 0x1_0000_0000 else u
  }

  /** Encoding and decoding an integer undo each other. */
  lemma IntRoundTrip(n: int)
    requires FitsInt32(n)
    ensures DecodeInt(EncodeInt(n)) == n
  {
    hide EncodeInt, DecodeInt, Unsigned;
    IntBytes(n);
    DigitsOf(EncodeInt(n));
  }

  lemma DecodedIntIsEncoded(b: seq<Byte>)
    requires |b| == 4
    ensures EncodeInt(DecodeInt(b)) == b
  {
    hide *;
    var n, e := DecodeInt(b), EncodeInt(DecodeInt(b));
    IntBytes(n);
    DigitsOf(b);
    Digits(e[0], e[1], e[2], e[3], b[0], b[1], b[2], b[3]);
  }

  lemma IntBytes(n: int)
    requires FitsInt32(n)
    ensures var b := EncodeInt(n);
            Unsigned(b[0], b[1], b[2], b[3]) == if n < 0 then n + 0x1_0000_0000 else n
  {
  }

  lemma DigitsOf(b: seq<Byte>)
    requires |b| == 4
    ensures FitsInt32(DecodeInt(b))
    ensures Unsigned(b[0], b[1], b[2], b[3]) == if DecodeInt(b) < 0 then DecodeInt(b) + 0x1_0000_0000 else DecodeInt(b)
  {
  }

  lemma Digits(a0: Byte, a1: Byte, a2: Byte, a3: Byte, b0: Byte, b1: Byte, b2: Byte, b3: Byte)
    requires Unsigned(a0, a1, a2, a3) == Unsigned(b0, b1, b2, b3)
    ensures a0 == b0 && a1 == b1 && a2 == b2 && a3 == b3
  {
  }

  /** The chunk stands in the bytes at the position. */
  predicate At(bytes: seq<Byte>, pos: nat, chunk: seq<Byte>) {
    pos + |chunk| <= |bytes| && bytes[pos..pos + |chunk|] == chunk
  }

  lemma AtSplit(bytes: seq<Byte>, pos: nat, a: seq<Byte>, b: seq<Byte>)
    ensures At(bytes, pos, a + b) <==> At(bytes, pos, a) && At(bytes, pos + |a|, b)
  {
    if At(bytes, pos, a + b) {
      assert bytes[pos..pos + |a|] == bytes[pos..pos + |a + b|][..|a|];
      assert bytes[pos + |a|..pos + |a| + |b|] == bytes[pos..pos + |a + b|][|a|..];
    }
    if At(bytes, pos, a) && At(bytes, pos + |a|, b) {
      assert bytes[pos..pos + |a + b|] == bytes[pos..pos + |a|] + bytes[pos + |a|..pos + |a| + |b|];
    }
  }

  /** A part of a chunk stands at its own place. */
  lemma AtPart(bytes: seq<Byte>, pos: nat, chunk: seq<Byte>, from: nat, part: seq<Byte>)
    requires At(bytes, pos, chunk) && At(chunk, from, part)
    ensures At(bytes, pos + from, part)
  {
    forall i | 0 <= i < |part| ensures bytes[pos + from + i] == part[i] {
      assert bytes[pos..pos + |chunk|][from + i] == bytes[pos + from + i];
      assert chunk[from..from + |part|][i] == chunk[from + i];
    }
    assert bytes[pos + from..pos + from + |part|] == part;
  }

  /** The bytes of a file after writing at a position; a gap before the position is filled with zeros. */
  function Overwrite(bytes: seq<Byte>, pos: nat, chunk: seq<Byte>): (r: seq<Byte>) {
    var base := if pos <= |bytes| then bytes else bytes + seq(pos - |bytes|, i => 0);
    if chunk == [] then bytes else base[..pos] + chunk + (if pos + |chunk| <= |base| then base[pos + |chunk|..] else [])
  }

  /** Every byte after a write. */
  lemma WrittenByte(bytes: seq<Byte>, pos: nat, chunk: seq<Byte>, i: nat)
    requires chunk != []
    ensures |Overwrite(bytes, pos, chunk)| == if |bytes| <= pos + |chunk| then pos + |chunk| else |bytes|
    ensures i < |Overwrite(bytes, pos, chunk)| ==>
              Overwrite(bytes, pos, chunk)[i] ==
              if pos <= i < pos + |chunk| then chunk[i - pos] else if i < |bytes| then bytes[i] else 0
  {
    var base := if pos <= |bytes| then bytes else bytes + seq(pos - |bytes|, i => 0);
    if pos + |chunk| <= |base| && pos + |chunk| <= i < |base| {
      assert base[pos + |chunk|..][i - pos - |chunk|] == base[i];
    }
  }

  /** Two writes in a row are one write. */
  lemma OverwriteTwice(bytes: seq<Byte>, pos: nat, a: seq<Byte>, b: seq<Byte>)
    ensures Overwrite(Overwrite(bytes, pos, a), pos + |a|, b) == Overwrite(bytes, pos, a + b)
  {
    if a == [] || b == [] {
      assert a + b == if a == [] then b else a;
      return;
    }
    hide Overwrite;
    var once := Overwrite(bytes, pos, a);
    forall i: nat
      ensures i < |Overwrite(bytes, pos, a + b)| ==>
                |Overwrite(once, pos + |a|, b)| == |Overwrite(bytes, pos, a + b)|
                && Overwrite(once, pos + |a|, b)[i] == Overwrite(bytes, pos, a + b)[i]
    {
      WrittenByte(bytes, pos, a, i);
      WrittenByte(bytes, pos, a + b, i);
      WrittenByte(once, pos + |a|, b, i);
    }
  }

  lemma SumOfThree(a: seq<Byte>, b: seq<Byte>, c: seq<Byte>)
    ensures a + (b + c) == a + b + c
  {
  }
}
