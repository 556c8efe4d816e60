/** The accessory manager's Base64 decoder (RFC 4648 section 4), on unsigned 8-bit characters. */
module Base64 {
  import opened Sequences

  const PAD: bv8 := 61  // '='
  const NOT_FOUND: bv8 := 0xFF  // std::string::npos in an unsigned char
  const INT32_LIMIT := 0x8000_0000

  /// The alphabet

  // The character at an index of the alphabet A-Z, a-z, 0-9, '+', '/'.
  function AlphabetChar(i: bv8): bv8
    requires i < 64
  {
    if i < 26 then 65 + i else if i < 52 then 71 + i else if i < 62 then i - 4 else if i == 62 then 43 else 47
  }

  // The index of c in the alphabet, as std::string::find gives it, cut to an unsigned char.
  function Find(c: bv8): bv8
  {
    if 65 <= c <= 90 then c - 65
    else if 97 <= c <= 122 then c - 71
    else if 48 <= c <= 57 then c + 4
    else if c == 43 then 62
    else if c == 47 then 63
    else NOT_FOUND
  }

  predicate IsAlnum(c: bv8) { 48 <= c <= 57 || 65 <= c <= 90 || 97 <= c <= 122 }

  predicate IsBase64(c: bv8) { IsAlnum(c) || c == 43 || c == 47 }

  lemma FindInvertsAlphabet(i: bv8)
    requires i < 64
    ensures IsBase64(AlphabetChar(i)) && Find(AlphabetChar(i)) == i
  {
  }

  /// The specification: six-bit values repacked into bytes

  // The characters before the first one outside the alphabet.
  function AlphabetPrefix(s: seq<bv8>): seq<bv8>
  {
    if s == [] || !IsBase64(s[0]) then [] else [s[0]] + AlphabetPrefix(s[1..])
  }

  function Values(chars: seq<bv8>): (values: seq<bv8>)
    ensures |values| == |chars|
  {
    seq(|chars|, i requires 0 <= i < |chars| => Find(chars[i]))
  }

  // Three bytes out of four values, as the decoder's byte arithmetic makes them.
  function Triple(a: bv8, b: bv8, c: bv8, d: bv8): seq<bv8>
  {
    [(a << 2) + ((b & 0x30) >> 4), ((b & 0xF) << 4) + ((c & 0x3C) >> 2), ((c & 0x3) << 6) + d]
  }

  function Repack(values: seq<bv8>): seq<bv8>
  {
    if |values| >= 4 then Triple(values[0], values[1], values[2], values[3]) + Repack(values[4..])
    else if |values| == 3 then Triple(values[0], values[1], values[2], NOT_FOUND)[..2]
    else if |values| == 2 then Triple(values[0], values[1], NOT_FOUND, NOT_FOUND)[..1]
    else []
  }

  function Decoded(s: seq<bv8>): seq<bv8>
  {
    Repack(Values(AlphabetPrefix(s)))
  }

  /// The decoder

  // Replaces each buffered character by its value.
  method LookUp(charArray4: array<bv8>)
    requires charArray4.Length == 4
    modifies charArray4
    ensures forall k :: 0 <= k < 4 ==> charArray4[k] == Find(old(charArray4[k]))
  {
    var i := 0;
    while i < 4
      invariant 0 <= i <= 4
      invariant forall k :: 0 <= k < i ==> charArray4[k] == Find(old(charArray4[k]))
      invariant forall k :: i <= k < 4 ==> charArray4[k] == old(charArray4[k])
    {
      charArray4[i] := Find(charArray4[i]);
      i := i + 1;
    }
  }

  // The byte arithmetic.
  method PackValues(a: bv8, b: bv8, c: bv8, d: bv8, charArray3: array<bv8>)
    requires charArray3.Length == 3
    modifies charArray3
    ensures charArray3[..] == Triple(a, b, c, d)
  {
    charArray3[0] := (a << 2) + ((b & 0x30) >> 4);
    charArray3[1] := ((b & 0xF) << 4) + ((c & 0x3C) >> 2);
    charArray3[2] := ((c & 0x3) << 6) + d;
  }

  // Replaces each buffered character by its value, then packs the four values into three bytes.
  method Pack(charArray4: array<bv8>, charArray3: array<bv8>)
    requires charArray4.Length == 4 && charArray3.Length == 3 && charArray4 != charArray3
    modifies charArray4, charArray3
    ensures charArray3[..] == Triple(Find(old(charArray4[0])), Find(old(charArray4[1])),
                                     Find(old(charArray4[2])), Find(old(charArray4[3])))
  {
    LookUp(charArray4);
    PackValues(charArray4[0], charArray4[1], charArray4[2], charArray4[3], charArray3);
  }

  lemma RemainingFromStart(s: seq<bv8>)
    ensures Remaining(s, 0, []) == Decoded(s)
  {
    RemainingIsRepack(s, 0, []);
    assert s[0..] == s && [] + AlphabetPrefix(s) == AlphabetPrefix(s);
  }

  // The copying loop: the first count packed bytes join the output.
  method Append(decoded: seq<bv8>, charArray3: array<bv8>, count: nat) returns (longer: seq<bv8>)
    requires count <= charArray3.Length
    ensures longer == decoded + charArray3[..count]
  {
    longer := decoded;
    var j := 0;
    while j < count
      invariant 0 <= j <= count
      invariant longer == decoded + charArray3[..j]
    {
      longer := longer + [charArray3[j]];
      j := j + 1;
    }
  }

  function BlockBytes(block: seq<bv8>): seq<bv8>
    requires |block| == 4
  {
    Triple(Find(block[0]), Find(block[1]), Find(block[2]), Find(block[3]))
  }

  // What the loop still adds to the output when buffer holds the characters just before index.
  function Remaining(s: seq<bv8>, index: nat, buffer: seq<bv8>): seq<bv8>
    requires index <= |s| && |buffer| <= 3
    decreases |s| - index
  {
    if index < |s| && IsBase64(s[index]) then
      if |buffer| < 3 then Remaining(s, index + 1, buffer + [s[index]])
      else
        BlockBytes(buffer + [s[index]]) + Remaining(s, index + 1, [])
    else Repack(Values(buffer))
  }

  // One turn of the loop moves a character into the buffer, and a full buffer into the output.
  lemma RemainingTurn(s: seq<bv8>, index: nat, buffer: seq<bv8>, decoded: seq<bv8>)
    requires index < |s| && IsBase64(s[index]) && |buffer| <= 3
    ensures var block := buffer + [s[index]];
            decoded + Remaining(s, index, buffer) ==
            if |block| < 4 then decoded + Remaining(s, index + 1, block)
            else decoded + BlockBytes(block) + Remaining(s, index + 1, [])
  {
    if |buffer| == 3 {
      AppendAssociates(decoded, BlockBytes(buffer + [s[index]]), Remaining(s, index + 1, []));
    }
  }

  lemma RemainingAtEnd(s: seq<bv8>, index: nat, buffer: seq<bv8>, decoded: seq<bv8>)
    requires index <= |s| && |buffer| <= 3 && (index < |s| ==> !IsBase64(s[index]))
    ensures decoded + Remaining(s, index, buffer) ==
            if buffer == [] then decoded else decoded + Repack(Values(buffer))
  {
  }

  lemma PrefixAt(s: seq<bv8>, index: nat, buffer: seq<bv8>)
    requires index < |s| && IsBase64(s[index])
    ensures buffer + AlphabetPrefix(s[index..]) == buffer + [s[index]] + AlphabetPrefix(s[index + 1..])
  {
    assert s[index..][1..] == s[index + 1..];
    AppendAssociates(buffer, [s[index]], AlphabetPrefix(s[index + 1..]));
  }

  // A full block in front is one triple in front.
  lemma RepackBlock(block: seq<bv8>, rest: seq<bv8>)
    requires |block| == 4
    ensures Repack(Values(block + rest)) == BlockBytes(block) + Repack(Values(rest))
  {
    assert Values(block + rest)[4..] == Values(rest);
  }

  lemma {:induction false} RemainingIsRepack(s: seq<bv8>, index: nat, buffer: seq<bv8>)
    requires index <= |s| && |buffer| <= 3
    ensures Remaining(s, index, buffer) == Repack(Values(buffer + AlphabetPrefix(s[index..])))
    decreases |s| - index
  {
    if index < |s| && IsBase64(s[index]) {
      var block, rest := buffer + [s[index]], AlphabetPrefix(s[index + 1..]);
      PrefixAt(s, index, buffer);
      if |buffer| < 3 {
        RemainingIsRepack(s, index + 1, block);
      } else {
        RemainingIsRepack(s, index + 1, []);
        RepackBlock(block, rest);
        assert [] + rest == rest;
      }
    } else {
      assert AlphabetPrefix(s[index..]) == [] && buffer + [] == buffer;
    }
  }

  // The characters buffered in the first cells of the array.
  ghost predicate Holds(charArray4: array<bv8>, buffer: seq<bv8>)
    reads charArray4
  {
    |buffer| <= charArray4.Length && forall k :: 0 <= k < |buffer| ==> charArray4[k] == buffer[k]
  }

  // A full block: all three bytes join the output.
  method DecodeBlock(charArray4: array<bv8>, charArray3: array<bv8>, decoded: seq<bv8>, ghost block: seq<bv8>)
    returns (longer: seq<bv8>)
    requires charArray4.Length == 4 && charArray3.Length == 3 && charArray4 != charArray3
    requires |block| == 4 && Holds(charArray4, block)
    modifies charArray4, charArray3
    ensures longer == decoded + BlockBytes(block)
  {
    Pack(charArray4, charArray3);
    longer := Append(decoded, charArray3, 3);
  }

  // The last, partial block: its missing characters are zero bytes, which Find does not know.
  method DecodeTail(charArray4: array<bv8>, charArray3: array<bv8>, i: nat, decoded: seq<bv8>, ghost block: seq<bv8>)
    returns (longer: seq<bv8>)
    requires charArray4.Length == 4 && charArray3.Length == 3 && charArray4 != charArray3
    requires 1 <= i == |block| <= 3 && Holds(charArray4, block)
    modifies charArray4, charArray3
    ensures longer == decoded + Repack(Values(block))
  {
    var j := i;
    while j < 4
      invariant i <= j <= 4
      invariant Holds(charArray4, block)
      invariant forall k :: i <= k < j ==> charArray4[k] == 0
    {
      charArray4[j] := 0;
      j := j + 1;
    }
    Pack(charArray4, charArray3);
    longer := Append(decoded, charArray3, i - 1);
  }

  // One turn of the loop: a character joins the buffer, and a full buffer is decoded and emptied.
  method Take(charArray4: array<bv8>, charArray3: array<bv8>, s: seq<bv8>, index: nat, i: nat, decoded: seq<bv8>,
              ghost buffer: seq<bv8>)
    returns (longer: seq<bv8>, next: nat, ghost held: seq<bv8>)
    requires charArray4.Length == 4 && charArray3.Length == 3 && charArray4 != charArray3
    requires index < |s| && IsBase64(s[index]) && i == |buffer| <= 3 && Holds(charArray4, buffer)
    modifies charArray4, charArray3
    ensures next == |held| <= 3 && Holds(charArray4, held)
    ensures longer + Remaining(s, index + 1, held) == decoded + Remaining(s, index, buffer)
  {
    RemainingTurn(s, index, buffer, decoded);
    charArray4[i] := s[index];
    longer, next, held := decoded, i + 1, buffer + [s[index]];
    if next == 4 {
      longer := DecodeBlock(charArray4, charArray3, decoded, held);
      next, held := 0, [];
    }
  }

  // The loop; it stops at the end or at the first character that is not of the alphabet.
  method DecodeBlocks(charArray4: array<bv8>, charArray3: array<bv8>, s: seq<bv8>)
    returns (decoded: seq<bv8>, i: nat, ghost buffer: seq<bv8>)
    requires charArray4.Length == 4 && charArray3.Length == 3 && charArray4 != charArray3
    modifies charArray4, charArray3
    ensures i == |buffer| <= 3 && Holds(charArray4, buffer)
    ensures if buffer == [] then decoded == Remaining(s, 0, [])
            else decoded + Repack(Values(buffer)) == Remaining(s, 0, [])
  {
    var index, len := 0, |s|;
    decoded, i, buffer := [], 0, [];
    while len != 0 && s[index] != PAD && IsBase64(s[index])
      invariant 0 <= len && 0 <= index && index + len == |s|
      invariant i == |buffer| <= 3 && Holds(charArray4, buffer)
      invariant decoded + Remaining(s, index, buffer) == Remaining(s, 0, [])
    {
      len := len - 1;
      decoded, i, buffer := Take(charArray4, charArray3, s, index, i, decoded, buffer);
      index := index + 1;
    }
    RemainingAtEnd(s, index, buffer, decoded);
  }

  method Base64Decode(basicString: seq<bv8>) returns (ret: seq<bv8>)
    requires |basicString| < INT32_LIMIT
    ensures ret == Decoded(basicString)
  {
    var charArray3, charArray4 := new bv8[3], new bv8[4];
    RemainingFromStart(basicString);
    ghost var buffer: seq<bv8>;
    var i: nat;
    ret, i, buffer := DecodeBlocks(charArray4, charArray3, basicString);
    if i != 0 {
      ret := DecodeTail(charArray4, charArray3, i, ret, buffer);
    }
  }
}
