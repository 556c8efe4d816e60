/** What the Base64 decoder computes: the bit stream of the leading alphabet characters, cut to whole bytes;
    and that it undoes the encoder of RFC 4648 section 4. */
module Base64Laws {
  import opened Base64

  /// Bit streams, high bit first

  function Bit8(b: bv8, i: nat): bool
    requires i < 8
  {
    match i
    case 0 => b & 0x80 != 0
    case 1 => b & 0x40 != 0
    case 2 => b & 0x20 != 0
    case 3 => b & 0x10 != 0
    case 4 => b & 0x08 != 0
    case 5 => b & 0x04 != 0
    case 6 => b & 0x02 != 0
    case _ => b & 0x01 != 0
  }

  // Bit k of a stream of bytes.
  function ByteBit(bytes: seq<bv8>, k: nat): bool
    requires k < 8 * |bytes|
  {
    Bit8(bytes[k / 8], k % 8)
  }

  // Bit k of a stream of six-bit values.
  function ValueBit(values: seq<bv8>, k: nat): bool
    requires k < 6 * |values|
  {
    Bit8(values[k / 6], 2 + k % 6)
  }

  lemma FirstByteBits(a: bv8, b: bv8, i: nat)
    requires a < 64 && b < 64 && i < 8
    ensures Bit8((a << 2) + ((b & 0x30) >> 4), i) == if i < 6 then Bit8(a, i + 2) else Bit8(b, i - 4)
  {
  }

  lemma SecondByteBits(b: bv8, c: bv8, i: nat)
    requires b < 64 && c < 64 && i < 8
    ensures Bit8(((b & 0xF) << 4) + ((c & 0x3C) >> 2), i) == if i < 4 then Bit8(b, i + 4) else Bit8(c, i - 2)
  {
  }

  lemma ThirdByteBits(c: bv8, d: bv8, i: nat)
    requires c < 64 && d < 64 && i < 8
    ensures Bit8(((c & 0x3) << 6) + d, i) == if i < 2 then Bit8(c, i + 6) else Bit8(d, i)
  {
  }

  // Where bit k of three bytes, and bit k of four values, is found.
  lemma ByteBitAt(bytes: seq<bv8>, k: nat)
    requires |bytes| == 3 && k < 24
    ensures ByteBit(bytes, k) ==
            if k < 8 then Bit8(bytes[0], k) else if k < 16 then Bit8(bytes[1], k - 8) else Bit8(bytes[2], k - 16)
  {
  }

  lemma ValueBitAt(values: seq<bv8>, k: nat)
    requires |values| == 4 && k < 24
    ensures ValueBit(values, k) ==
            if k < 6 then Bit8(values[0], k + 2) else if k < 12 then Bit8(values[1], k - 4)
            else if k < 18 then Bit8(values[2], k - 10) else Bit8(values[3], k - 16)
  {
  }

  lemma FirstByte(values: seq<bv8>, k: nat)
    requires |values| == 4 && values[0] < 64 && values[1] < 64 && k < 8
    ensures ByteBit(Triple(values[0], values[1], values[2], values[3]), k) == ValueBit(values, k)
  {
    ByteBitAt(Triple(values[0], values[1], values[2], values[3]), k);
    ValueBitAt(values, k);
    FirstByteBits(values[0], values[1], k);
  }

  lemma SecondByte(values: seq<bv8>, k: nat)
    requires |values| == 4 && values[1] < 64 && values[2] < 64 && 8 <= k < 16
    ensures ByteBit(Triple(values[0], values[1], values[2], values[3]), k) == ValueBit(values, k)
  {
    ByteBitAt(Triple(values[0], values[1], values[2], values[3]), k);
    ValueBitAt(values, k);
    SecondByteBits(values[1], values[2], k - 8);
  }

  lemma ThirdByte(values: seq<bv8>, k: nat)
    requires |values| == 4 && values[2] < 64 && values[3] < 64 && 16 <= k < 24
    ensures ByteBit(Triple(values[0], values[1], values[2], values[3]), k) == ValueBit(values, k)
  {
    ByteBitAt(Triple(values[0], values[1], values[2], values[3]), k);
    ValueBitAt(values, k);
    ThirdByteBits(values[2], values[3], k - 16);
  }

  // A byte of the triple depends only on the values its bits come from.
  lemma TripleBits(values: seq<bv8>, k: nat)
    requires |values| == 4 && values[0] < 64 && values[1] < 64 && k < 24
    requires k >= 8 ==> values[2] < 64
    requires k >= 16 ==> values[3] < 64
    ensures ByteBit(Triple(values[0], values[1], values[2], values[3]), k) == ValueBit(values, k)
  {
    if k < 8 {
      FirstByte(values, k);
    } else if k < 16 {
      SecondByte(values, k);
    } else {
      ThirdByte(values, k);
    }
  }

  lemma {:induction false} RepackLength(values: seq<bv8>)
    ensures |Repack(values)| == 3 * |values| / 4
  {
    if |values| >= 4 {
      RepackLength(values[4..]);
    }
  }

  // Dropping whole groups at the front moves every later bit down.
  lemma ByteBitDrop(bytes: seq<bv8>, k: nat)
    requires 24 <= k < 8 * |bytes|
    ensures ByteBit(bytes, k) == ByteBit(bytes[3..], k - 24)
  {
    assert (k - 24) / 8 == k / 8 - 3 && (k - 24) % 8 == k % 8;
  }

  lemma ValueBitDrop(values: seq<bv8>, k: nat)
    requires 24 <= k < 6 * |values|
    ensures ValueBit(values, k) == ValueBit(values[4..], k - 24)
  {
    assert (k - 24) / 6 == k / 6 - 4 && (k - 24) % 6 == k % 6;
  }

  lemma BitsAgreeOnPrefix(a: seq<bv8>, b: seq<bv8>, k: nat)
    requires a <= b
    ensures k < 8 * |a| ==> ByteBit(a, k) == ByteBit(b, k)
    ensures k < 6 * |a| ==> ValueBit(a, k) == ValueBit(b, k)
  {
  }

  lemma FirstGroupBits(values: seq<bv8>, k: nat)
    requires |values| >= 4 && k < 24 && forall i :: 0 <= i < |values| ==> values[i] < 64
    ensures |Repack(values)| >= 3 && ByteBit(Repack(values), k) == ValueBit(values, k)
  {
    TripleBits(values[..4], k);
    BitsAgreeOnPrefix(Triple(values[0], values[1], values[2], values[3]), Repack(values), k);
    BitsAgreeOnPrefix(values[..4], values, k);
  }

  lemma LastGroupBits(values: seq<bv8>, k: nat)
    requires |values| <= 3 && forall i :: 0 <= i < |values| ==> values[i] < 64
    requires k < 8 * |Repack(values)|
    ensures k < 6 * |values| && ByteBit(Repack(values), k) == ValueBit(values, k)
  {
    var c := if |values| == 3 then values[2] else NOT_FOUND;
    TripleBits([values[0], values[1], c, NOT_FOUND], k);
    BitsAgreeOnPrefix(Repack(values), Triple(values[0], values[1], c, NOT_FOUND), k);
    BitsAgreeOnPrefix(values, [values[0], values[1], c, NOT_FOUND], k);
  }

  lemma LaterGroupBits(values: seq<bv8>, k: nat)
    requires |values| >= 4 && 24 <= k < 8 * |Repack(values)|
    ensures Repack(values)[3..] == Repack(values[4..])
    ensures ByteBit(Repack(values), k) == ByteBit(Repack(values[4..]), k - 24)
    ensures k - 24 < 6 * |values[4..]| ==> ValueBit(values, k) == ValueBit(values[4..], k - 24)
  {
    assert Repack(values)[3..] == Repack(values[4..]);
    ByteBitDrop(Repack(values), k);
    if k - 24 < 6 * |values[4..]| {
      ValueBitDrop(values, k);
    }
  }

  lemma {:induction false} RepackBits(values: seq<bv8>, k: nat)
    requires forall i :: 0 <= i < |values| ==> values[i] < 64
    requires k < 8 * |Repack(values)|
    ensures k < 6 * |values| && ByteBit(Repack(values), k) == ValueBit(values, k)
  {
    if |values| < 4 {
      LastGroupBits(values, k);
    } else if k < 24 {
      FirstGroupBits(values, k);
    } else {
      LaterGroupBits(values, k);
      RepackBits(values[4..], k - 24);
    }
  }

  lemma {:induction false} PrefixIsAlphabet(s: seq<bv8>)
    ensures AlphabetPrefix(s) <= s
    ensures forall i :: 0 <= i < |AlphabetPrefix(s)| ==> IsBase64(s[i])
    ensures |AlphabetPrefix(s)| < |s| ==> !IsBase64(s[|AlphabetPrefix(s)|])
  {
    if s != [] && IsBase64(s[0]) {
      PrefixIsAlphabet(s[1..]);
      assert s == [s[0]] + s[1..];
    }
  }

  // On every string: n leading alphabet characters give 3n/4 whole bytes, and bit k of the output is bit k of the
  // characters' values. Nothing else of the string, and no filler, reaches the output.
  lemma DecodedBits(s: seq<bv8>)
    ensures var prefix := AlphabetPrefix(s);
            && |Decoded(s)| == 3 * |prefix| / 4
            && forall k :: 0 <= k < 8 * |Decoded(s)| ==>
                 k < 6 * |prefix| && ByteBit(Decoded(s), k) == ValueBit(Values(prefix), k)
  {
    var values := Values(AlphabetPrefix(s));
    PrefixIsAlphabet(s);
    RepackLength(values);
    forall k | 0 <= k < 8 * |Repack(values)|
      ensures k < 6 * |values| && ByteBit(Repack(values), k) == ValueBit(values, k)
    {
      RepackBits(values, k);
    }
  }

  /// The encoder of RFC 4648 section 4

  function Quad(x: bv8, y: bv8, z: bv8): (values: seq<bv8>)
    ensures |values| == 4 && forall i :: 0 <= i < 4 ==> values[i] < 64
  {
    [x >> 2, ((x & 0x3) << 4) | (y >> 4), ((y & 0xF) << 2) | (z >> 6), z & 0x3F]
  }

  function EncodeValues(bytes: seq<bv8>): (values: seq<bv8>)
    ensures forall i :: 0 <= i < |values| ==> values[i] < 64
  {
    if |bytes| >= 3 then Quad(bytes[0], bytes[1], bytes[2]) + EncodeValues(bytes[3..])
    else if |bytes| == 2 then Quad(bytes[0], bytes[1], 0)[..3]
    else if |bytes| == 1 then Quad(bytes[0], 0, 0)[..2]
    else []
  }

  function Letters(values: seq<bv8>): seq<bv8>
    requires forall i :: 0 <= i < |values| ==> values[i] < 64
  {
    seq(|values|, i requires 0 <= i < |values| => AlphabetChar(values[i]))
  }

  function Padding(bytes: seq<bv8>): seq<bv8>
  {
    if |bytes| % 3 == 1 then [PAD, PAD] else if |bytes| % 3 == 2 then [PAD] else []
  }

  function Encode(bytes: seq<bv8>): seq<bv8>
  {
    Letters(EncodeValues(bytes)) + Padding(bytes)
  }

  lemma TripleUndoesQuad(x: bv8, y: bv8, z: bv8)
    ensures var q := Quad(x, y, z); Triple(q[0], q[1], q[2], q[3]) == [x, y, z]
  {
  }

  lemma RepackQuad(quad: seq<bv8>, rest: seq<bv8>)
    requires |quad| == 4
    ensures Repack(quad + rest) == Triple(quad[0], quad[1], quad[2], quad[3]) + Repack(rest)
  {
    assert (quad + rest)[4..] == rest;
  }

  lemma {:induction false} RepackUndoesEncode(bytes: seq<bv8>)
    ensures Repack(EncodeValues(bytes)) == bytes
  {
    if |bytes| >= 3 {
      TripleUndoesQuad(bytes[0], bytes[1], bytes[2]);
      RepackUndoesEncode(bytes[3..]);
      RepackQuad(Quad(bytes[0], bytes[1], bytes[2]), EncodeValues(bytes[3..]));
      assert bytes == [bytes[0], bytes[1], bytes[2]] + bytes[3..];
    } else if |bytes| == 2 {
      TripleUndoesQuad(bytes[0], bytes[1], 0);
    } else if |bytes| == 1 {
      TripleUndoesQuad(bytes[0], 0, 0);
    }
  }

  lemma {:induction false} PrefixOfLetters(values: seq<bv8>, tail: seq<bv8>)
    requires forall i :: 0 <= i < |values| ==> values[i] < 64
    requires tail == [] || !IsBase64(tail[0])
    ensures AlphabetPrefix(Letters(values) + tail) == Letters(values) && Values(Letters(values)) == values
  {
    if values == [] {
      assert Letters(values) + tail == tail;
    } else {
      FindInvertsAlphabet(values[0]);
      assert (Letters(values) + tail)[1..] == Letters(values[1..]) + tail;
      PrefixOfLetters(values[1..], tail);
      assert Letters(values) == [AlphabetChar(values[0])] + Letters(values[1..]);
      assert Values(Letters(values)) == [values[0]] + Values(Letters(values[1..]));
    }
  }

  lemma DecodeLetters(bytes: seq<bv8>, tail: seq<bv8>)
    requires tail == [] || !IsBase64(tail[0])
    ensures Decoded(Letters(EncodeValues(bytes)) + tail) == bytes
  {
    RepackUndoesEncode(bytes);
    PrefixOfLetters(EncodeValues(bytes), tail);
  }

  // Decoding the letters of an encoding gives the bytes back, with the padding, without it, or with anything
  // outside the alphabet after it.
  lemma DecodeUndoesEncode(bytes: seq<bv8>, tail: seq<bv8>)
    requires tail == [] || !IsBase64(tail[0])
    ensures Decoded(Letters(EncodeValues(bytes)) + tail) == bytes
    ensures Decoded(Encode(bytes)) == bytes
  {
    DecodeLetters(bytes, tail);
    DecodeLetters(bytes, Padding(bytes));
  }

  /// The alphabet, and test vectors of RFC 4648

  // Table 1 of section 4: upper case, lower case, digits, plus and slash; nothing else is in the alphabet.
  lemma AlphabetIsTable1(i: bv8, c: bv8)
    requires i < 64
    ensures AlphabetChar(i) ==
            if i < 26 then 'A' as bv8 + i
            else if i < 52 then 'a' as bv8 + (i - 26)
            else if i < 62 then '0' as bv8 + (i - 52)
            else if i == 62 then '+' as bv8 else '/' as bv8
    ensures Find(c) == i <==> c == AlphabetChar(i)
    ensures IsBase64(c) <==> Find(c) < 64
  {
  }

  // Section 10: "Zm9v", "Zm8=" and "Zg==" are "foo", "fo" and "f".
  lemma FooDecodes()
    ensures Decoded([0x5A, 0x6D, 0x39, 0x76]) == [0x66, 0x6F, 0x6F]
    ensures Decoded([0x5A, 0x6D, 0x38, 0x3D]) == [0x66, 0x6F]
    ensures Decoded([0x5A, 0x67, 0x3D, 0x3D]) == [0x66]
  {
  }
}
