/**
  The target digest as `HashCracker` reads it (cracker/hashes.py lines
  104-105) and as `compute` writes each result row back (line 158). Decoding
  is Python 2's `str.decode('hex')`, then numpy's `fromstring` with dtype
  uint32 on a little-endian host, then `byteswap`; encoding is `byteswap`,
  `tobytes` and `encode('hex')`. The round trips hold both ways, for rows of
  any length one way and for lowercase text the other, and a decoded word is
  the big-endian reading of its four bytes, as SHA-256 words are.
 */
module HexDigest {
  import F = Fips180
  import opened Wrappers

  /** The exceptions the decoding raises. */
  datatype DecodeError =
    | OddLength      // TypeError: Odd-length string
    | NonHexDigit    // TypeError: Non-hexadecimal digit found
    | NotWordSized   // ValueError: string size must be a multiple of element size

  predicate IsHexDigit(c: char) {
    '0' <= c <= '9' || 'a' <= c <= 'f' || 'A' <= c <= 'F'
  }

  predicate IsLowerHexDigit(c: char) {
    '0' <= c <= '9' || 'a' <= c <= 'f'
  }

  predicate IsLowerHex(s: string) {
    forall i :: 0 <= i < |s| ==> IsLowerHexDigit(s[i])
  }

  // Nibbles and hex digits.

  /** The lowercase digits `encode('hex')` writes, by value. */
  const Digits: string := "0123456789abcdef"

  /** The value of a hex digit of either case. */
  function Nibble(c: char): (n: bv8)
    requires IsHexDigit(c)
    ensures n < 16
  {
    if c == '0' then 0 else if c == '1' then 1 else if c == '2' then 2 else if c == '3' then 3
    else if c == '4' then 4 else if c == '5' then 5 else if c == '6' then 6 else if c == '7' then 7
    else if c == '8' then 8 else if c == '9' then 9 else if c == 'a' || c == 'A' then 10
    else if c == 'b' || c == 'B' then 11 else if c == 'c' || c == 'C' then 12
    else if c == 'd' || c == 'D' then 13 else if c == 'e' || c == 'E' then 14 else 15
  }

  /** The lowercase digit `encode('hex')` writes for a nibble. */
  function HexDigit(n: bv8): (c: char)
    requires n < 16
    ensures IsLowerHexDigit(c)
  {
    Digits[n as int]
  }

  lemma NibbleOfDigit(n: bv8)
    requires n < 16
    ensures Nibble(HexDigit(n)) == n
  {
  }

  lemma DigitOfNibble(c: char)
    requires IsLowerHexDigit(c)
    ensures HexDigit(Nibble(c)) == c
  {
  }

  function ByteOfNibbles(hi: bv8, lo: bv8): bv8
    requires hi < 16 && lo < 16
  {
    (hi << 4) | lo
  }

  lemma NibblesOfByte(b: bv8)
    ensures b >> 4 < 16 && b & 0xf < 16 && ByteOfNibbles(b >> 4, b & 0xf) == b
  {
  }

  lemma ByteOfNibblesSplits(hi: bv8, lo: bv8)
    requires hi < 16 && lo < 16
    ensures ByteOfNibbles(hi, lo) >> 4 == hi && ByteOfNibbles(hi, lo) & 0xf == lo
  {
  }

  // str.decode('hex') and str.encode('hex').

  /** The byte two hex digits stand for, high nibble first. */
  function PairByte(c0: char, c1: char): bv8
    requires IsHexDigit(c0) && IsHexDigit(c1)
  {
    ByteOfNibbles(Nibble(c0), Nibble(c1))
  }

  /** The two lowercase digits of a byte, high nibble first. */
  function HexByte(b: bv8): (s: string)
    ensures |s| == 2 && IsLowerHex(s)
  {
    [HexDigit(b >> 4), HexDigit(b & 0xf)]
  }

  /** The bytes of an even-length string of hex digits, two digits a byte. */
  function Pairs(s: string): (bs: seq<bv8>)
    requires |s| % 2 == 0 && forall i :: 0 <= i < |s| ==> IsHexDigit(s[i])
    ensures |bs| == |s| / 2
  {
    if |s| == 0 then [] else [PairByte(s[0], s[1])] + Pairs(s[2..])
  }

  /** `s.decode('hex')`: the length is checked first, then every digit. */
  function Unhex(s: string): (r: Result<seq<bv8>, DecodeError>)
    ensures r.Success? <==> |s| % 2 == 0 && forall i :: 0 <= i < |s| ==> IsHexDigit(s[i])
    ensures r.Failure? && |s| % 2 == 1 ==> r.error == OddLength
  {
    if |s| % 2 == 1 then Failure(OddLength)
    else if exists i :: 0 <= i < |s| && !IsHexDigit(s[i]) then Failure(NonHexDigit)
    else Success(Pairs(s))
  }

  /** `bs.encode('hex')`: two lowercase digits a byte, high nibble first. */
  function Hex(bs: seq<bv8>): (s: string)
    ensures |s| == 2 * |bs| && IsLowerHex(s)
  {
    if |bs| == 0 then [] else HexByte(bs[0]) + Hex(bs[1..])
  }

  lemma {:induction false} PairsOfHex(bs: seq<bv8>)
    ensures var s := Hex(bs); (forall i :: 0 <= i < |s| ==> IsHexDigit(s[i])) && Pairs(s) == bs
  {
    if |bs| > 0 {
      var s := Hex(bs);
      PairsOfHex(bs[1..]);
      assert s[2..] == Hex(bs[1..]);
      NibblesOfByte(bs[0]);
      NibbleOfDigit(bs[0] >> 4);
      NibbleOfDigit(bs[0] & 0xf);
    }
  }

  lemma {:induction false} HexOfPairs(s: string)
    requires |s| % 2 == 0 && IsLowerHex(s)
    ensures Hex(Pairs(s)) == s
  {
    if |s| > 0 {
      var rest := s[2..];
      assert IsLowerHex(rest) by {
        forall i | 0 <= i < |rest|
          ensures IsLowerHexDigit(rest[i])
        {
          assert rest[i] == s[i + 2];
        }
      }
      HexOfPairs(rest);
      HexOfPair(s[0], s[1]);
      assert s == [s[0], s[1]] + rest;
    }
  }

  /** Two lowercase digits make a byte that re-encodes to them. */
  lemma HexOfPair(c0: char, c1: char)
    requires IsLowerHexDigit(c0) && IsLowerHexDigit(c1)
    ensures HexByte(PairByte(c0, c1)) == [c0, c1]
  {
    ByteOfNibblesSplits(Nibble(c0), Nibble(c1));
    DigitOfNibble(c0);
    DigitOfNibble(c1);
  }

  // numpy: fromstring(dtype=uint32) on a little-endian host, tobytes, byteswap.

  /** A native (little-endian) uint32 from four bytes, lowest address first. */
  function LittleEndianWord(b0: bv8, b1: bv8, b2: bv8, b3: bv8): bv32 {
    (b0 as bv32) | ((b1 as bv32) << 8) | ((b2 as bv32) << 16) | ((b3 as bv32) << 24)
  }

  /** The four bytes of a native uint32, lowest address first. */
  function LittleEndianBytes(w: bv32): (bs: seq<bv8>)
    ensures |bs| == 4
  {
    [(w & 0xff) as bv8, ((w >> 8) & 0xff) as bv8, ((w >> 16) & 0xff) as bv8, (w >> 24) as bv8]
  }

  lemma WordOfBytes(w: bv32)
    ensures var bs := LittleEndianBytes(w); LittleEndianWord(bs[0], bs[1], bs[2], bs[3]) == w
  {
  }

  lemma BytesOfWord(b0: bv8, b1: bv8, b2: bv8, b3: bv8)
    ensures LittleEndianBytes(LittleEndianWord(b0, b1, b2, b3)) == [b0, b1, b2, b3]
  {
  }

  /** The words of a byte string whose length is a multiple of four. */
  function Words(bs: seq<bv8>): (ws: seq<bv32>)
    requires |bs| % 4 == 0
    ensures |ws| == |bs| / 4
  {
    if |bs| == 0 then [] else [LittleEndianWord(bs[0], bs[1], bs[2], bs[3])] + Words(bs[4..])
  }

  /** `np.fromstring(bs, dtype=np.uint32)`. */
  function FromString(bs: seq<bv8>): (r: Result<seq<bv32>, DecodeError>)
    ensures r.Success? <==> |bs| % 4 == 0
  {
    if |bs| % 4 != 0 then Failure(NotWordSized) else Success(Words(bs))
  }

  /** `ws.tobytes()`. */
  function ToBytes(ws: seq<bv32>): (bs: seq<bv8>)
    ensures |bs| == 4 * |ws|
  {
    if |ws| == 0 then [] else LittleEndianBytes(ws[0]) + ToBytes(ws[1..])
  }

  lemma {:induction false} WordsOfBytes(ws: seq<bv32>)
    ensures Words(ToBytes(ws)) == ws
  {
    if |ws| > 0 {
      var bs := ToBytes(ws);
      assert bs[4..] == ToBytes(ws[1..]);
      WordsOfBytes(ws[1..]);
      WordOfBytes(ws[0]);
    }
  }

  lemma {:induction false} BytesOfWords(bs: seq<bv8>)
    requires |bs| % 4 == 0
    ensures ToBytes(Words(bs)) == bs
  {
    if |bs| > 0 {
      BytesOfWords(bs[4..]);
      BytesOfWord(bs[0], bs[1], bs[2], bs[3]);
      assert Words(bs)[1..] == Words(bs[4..]);
      assert bs == bs[..4] + bs[4..];
    }
  }

  /** The byte order of one uint32 reversed. */
  function Swap(w: bv32): bv32 {
    (w << 24) | ((w << 8) & 0x00ff_0000) | ((w >> 8) & 0x0000_ff00) | (w >> 24)
  }

  lemma SwapSwap(w: bv32)
    ensures Swap(Swap(w)) == w
  {
  }

  /** A swapped native word is the big-endian reading of the same bytes. */
  lemma SwapIsBigEndian(b0: bv8, b1: bv8, b2: bv8, b3: bv8)
    ensures Swap(LittleEndianWord(b0, b1, b2, b3)) == F.WordOf(b0, b1, b2, b3)
  {
  }

  /** `ws.byteswap()`. */
  function ByteSwap(ws: seq<bv32>): (r: seq<bv32>)
    ensures |r| == |ws|
  {
    seq(|ws|, i requires 0 <= i < |ws| => Swap(ws[i]))
  }

  lemma ByteSwapTwice(ws: seq<bv32>)
    ensures ByteSwap(ByteSwap(ws)) == ws
  {
    forall i | 0 <= i < |ws|
      ensures ByteSwap(ByteSwap(ws))[i] == ws[i]
    {
      SwapSwap(ws[i]);
    }
  }

  // The two directions of line 105 and line 158.

  /** `np.fromstring(s.decode('hex'), dtype=np.uint32).byteswap()`. */
  function Decode(s: string): (r: Result<seq<bv32>, DecodeError>)
    ensures r.Success? <==> |s| % 8 == 0 && forall i :: 0 <= i < |s| ==> IsHexDigit(s[i])
    ensures r.Success? ==> |r.value| == |s| / 8
  {
    match Unhex(s)
    case Failure(e) => Failure(e)
    case Success(bs) =>
      match FromString(bs)
      case Failure(e) => Failure(e)
      case Success(ws) => Success(ByteSwap(ws))
  }

  /** `row.byteswap().tobytes().encode('hex')`. */
  function Encode(row: seq<bv32>): (s: string)
    ensures |s| == 8 * |row| && IsLowerHex(s)
  {
    Hex(ToBytes(ByteSwap(row)))
  }

  /** Every row of words is decoded back from its encoding. */
  lemma DecodeEncode(row: seq<bv32>)
    ensures Decode(Encode(row)) == Success(row)
  {
    var bs := ToBytes(ByteSwap(row));
    PairsOfHex(bs);
    WordsOfBytes(ByteSwap(row));
    ByteSwapTwice(row);
  }

  /** Lowercase hex of a whole number of words is encoded back from its decoding. */
  lemma EncodeDecode(s: string)
    requires |s| % 8 == 0 && IsLowerHex(s)
    ensures Decode(s).Success? && Encode(Decode(s).value) == s
  {
    var bs := Pairs(s);
    ByteSwapTwice(Words(bs));
    BytesOfWords(bs);
    HexOfPairs(s);
  }

  /** Decoded word k is the big-endian reading of bytes 4k to 4k+3. */
  lemma DecodeIsBigEndian(s: string, k: nat)
    requires Decode(s).Success? && k < |Decode(s).value|
    ensures var bs := Pairs(s);
      Decode(s).value[k] == F.WordOf(bs[4 * k], bs[4 * k + 1], bs[4 * k + 2], bs[4 * k + 3])
  {
    var bs := Pairs(s);
    WordsAt(bs, k);
    SwapIsBigEndian(bs[4 * k], bs[4 * k + 1], bs[4 * k + 2], bs[4 * k + 3]);
  }

  lemma {:induction false} WordsAt(bs: seq<bv8>, k: nat)
    requires |bs| % 4 == 0 && k < |bs| / 4
    ensures Words(bs)[k] == LittleEndianWord(bs[4 * k], bs[4 * k + 1], bs[4 * k + 2], bs[4 * k + 3])
  {
    if k > 0 {
      WordsAt(bs[4..], k - 1);
    }
  }

  /** A digest with an uppercase digit is never an encoding. */
  lemma UppercaseNeverEncoded(s: string, row: seq<bv32>)
    requires exists i :: 0 <= i < |s| && 'A' <= s[i] <= 'F'
    ensures Encode(row) != s
  {
  }
}
