/**
  The block built by the kernel's loading loop (module Loading) against the
  padding and parsing of sections 5.1.1 and 5.2.1 of FIPS 180-4: for a
  message of fewer than 56 bytes, all below 0x80, the two agree word for
  word; a byte of 0x80 or more does not.
 */
module Padding {
  import F = Fips180
  import opened Loading

  /** Parsing a big-endian word is assembling its four lanes. */
  lemma WordOfIsWord4(b0: bv8, b1: bv8, b2: bv8, b3: bv8)
    ensures F.WordOf(b0, b1, b2, b3) == Word4(b0 as bv32, b1 as bv32, b2 as bv32, b3 as bv32)
  {
  }

  /** For ASCII input, every lane before the length field is the padded byte. */
  lemma PadLaneIsPadded(msg: seq<bv8>, j: nat)
    requires |msg| < 56 && IsAscii(msg) && j < 56
    ensures PadLanes(msg)[j] == F.PaddedMessage(msg)[j] as bv32
  {
    var p := F.PaddedMessage(msg);
    if j < |msg| {
      assert p[j] == p[..|msg|][j] == msg[j];
      AsciiWidens(msg[j]);
    }
  }

  /** Words 0 to 13: bytes, marker and zero fill. */
  lemma LowWordIsParsed(msg: seq<bv8>, k: nat)
    requires |msg| < 56 && IsAscii(msg) && k < 14
    ensures BlockWord(msg, k) == F.Parse(F.PaddedMessage(msg))[k]
  {
    var p := F.PaddedMessage(msg);
    BlockLanes(msg, k);
    OrZero(Lanes(PadLanes(msg), k, 4));
    PadLaneIsPadded(msg, 4 * k);
    PadLaneIsPadded(msg, 4 * k + 1);
    PadLaneIsPadded(msg, 4 * k + 2);
    PadLaneIsPadded(msg, 4 * k + 3);
    WordOfIsWord4(p[4 * k], p[4 * k + 1], p[4 * k + 2], p[4 * k + 3]);
  }

  /** Word 14: the upper half of the 64-bit length, zero. */
  lemma Word14IsParsed(msg: seq<bv8>)
    requires |msg| < 56
    ensures BlockWord(msg, 14) == F.Parse(F.PaddedMessage(msg))[14]
  {
    F.PaddedBlockLayout(msg);
    assert Lanes(Widened(msg), 14, 4) == Word4(0, 0, 0, 0);
  }

  /** Word 15: the bit length. */
  lemma Word15IsParsed(msg: seq<bv8>)
    requires |msg| < 56
    ensures BlockWord(msg, 15) == F.Parse(F.PaddedMessage(msg))[15]
  {
    F.PaddedBlockLayout(msg);
    assert Lanes(Widened(msg), 15, 4) == Word4(0, 0, 0, 0);
    ZeroOr(F.BitLength(|msg|));
  }

  lemma ZeroOr(x: bv32)
    ensures Word4(0, 0, 0, 0) | 0 | x == x
  {
  }

  /** Sections 5.1.1 and 5.2.1 of FIPS 180-4 for ASCII messages of fewer
      than 56 bytes: lines 44-50 build exactly the padded, parsed block. */
  lemma BlockIsPadding(msg: seq<bv8>)
    requires |msg| < 56 && IsAscii(msg)
    ensures Block(msg) == F.Parse(F.PaddedMessage(msg))
  {
    forall k | 0 <= k < 16
      ensures Block(msg)[k] == F.Parse(F.PaddedMessage(msg))[k]
    {
      if k < 14 {
        LowWordIsParsed(msg, k);
      } else if k == 14 {
        Word14IsParsed(msg);
      } else {
        Word15IsParsed(msg);
      }
    }
  }

  /** Byte i of an ASCII message lands in word i / 4 at big-endian position
      i % 4, the marker right after it, zeros up to the length field, which
      holds the bit length. */
  lemma BytePlacement(msg: seq<bv8>, i: nat)
    requires |msg| < 56 && IsAscii(msg) && i < 56
    ensures F.ByteOf(Block(msg)[i / 4], i % 4) == if i < |msg| then msg[i] else if i == |msg| then 0x80 else 0
    ensures Block(msg)[14] == 0 && Block(msg)[15] == F.BitLength(|msg|)
  {
    var p := F.PaddedMessage(msg);
    BlockIsPadding(msg);
    F.ParsedByte(p, i);
    F.PaddedBlockLayout(msg);
    if i < |msg| {
      assert p[i] == p[..|msg|][i];
    }
  }

  /** A byte of 0x80 or more breaks the agreement: for the message
      0x61 0x80 the kernel's first word is 0xff808000, where FIPS 180-4
      parses 0x61808000. */
  lemma SignExtensionPollutes()
    ensures Block([0x61, 0x80])[0] == 0xff808000
    ensures F.Parse(F.PaddedMessage([0x61, 0x80]))[0] == 0x61808000
  {
    var msg: seq<bv8> := [0x61, 0x80];
    BlockLanes(msg, 0);
    assert PadLanes(msg)[0] == 0x61 && PadLanes(msg)[1] == 0xffff_ff80;
    assert PadLanes(msg)[2] == 0x80 && PadLanes(msg)[3] == 0;
    Polluted();
    var p := F.PaddedMessage(msg);
    assert p[0] == 0x61 && p[1] == 0x80 && p[2] == 0x80 && p[3] == 0;
  }

  lemma Polluted()
    ensures Word4(0x61, 0xffff_ff80, 0x80, 0) | 0 == 0xff808000
  {
  }
}
