/**
  The single-block SHA-256 computation of FIPS 180-4, written from the
  standard: the logical functions of section 4.1.2, the constants of
  section 4.2.2, the padding of section 5.1.1, the parsing of section 5.2.1,
  the initial hash value of section 5.3.3 and the hash computation of
  section 6.2.2. The kernel model is proved against these definitions.
 */
module Fips180 {

  /** The 64 round constants of section 4.2.2. */
  const K: seq<bv32> := [
    0x428a2f98, 0x71374491, 0xb5c0fbcf, 0xe9b5dba5, 0x3956c25b, 0x59f111f1,
    0x923f82a4, 0xab1c5ed5, 0xd807aa98, 0x12835b01, 0x243185be, 0x550c7dc3,
    0x72be5d74, 0x80deb1fe, 0x9bdc06a7, 0xc19bf174, 0xe49b69c1, 0xefbe4786,
    0x0fc19dc6, 0x240ca1cc, 0x2de92c6f, 0x4a7484aa, 0x5cb0a9dc, 0x76f988da,
    0x983e5152, 0xa831c66d, 0xb00327c8, 0xbf597fc7, 0xc6e00bf3, 0xd5a79147,
    0x06ca6351, 0x14292967, 0x27b70a85, 0x2e1b2138, 0x4d2c6dfc, 0x53380d13,
    0x650a7354, 0x766a0abb, 0x81c2c92e, 0x92722c85, 0xa2bfe8a1, 0xa81a664b,
    0xc24b8b70, 0xc76c51a3, 0xd192e819, 0xd6990624, 0xf40e3585, 0x106aa070,
    0x19a4c116, 0x1e376c08, 0x2748774c, 0x34b0bcb5, 0x391c0cb3, 0x4ed8aa4a,
    0x5b9cca4f, 0x682e6ff3, 0x748f82ee, 0x78a5636f, 0x84c87814, 0x8cc70208,
    0x90befffa, 0xa4506ceb, 0xbef9a3f7, 0xc67178f2
  ]

  /** The initial hash value H(0) of section 5.3.3. */
  const H0: seq<bv32> := [
    0x6a09e667, 0xbb67ae85, 0x3c6ef372, 0xa54ff53a, 0x510e527f, 0x9b05688c,
    0x1f83d9ab, 0x5be0cd19
  ]

  // Section 4.1.2: the six logical functions of SHA-256. ROTR^n(x) is
  // (x >> n) | (x << 32 - n) and SHR^n(x) is x >> n (section 3.2); they are
  // written out with their constant amounts.

  function Ch(x: bv32, y: bv32, z: bv32): bv32 {
    (x & y) ^ (!x & z)
  }

  function Maj(x: bv32, y: bv32, z: bv32): bv32 {
    (x & y) ^ (x & z) ^ (y & z)
  }

  /** ROTR^2 ^ ROTR^13 ^ ROTR^22 */
  function BigSigma0(x: bv32): bv32 {
    ((x >> 2) | (x << 30)) ^ ((x >> 13) | (x << 19)) ^ ((x >> 22) | (x << 10))
  }

  /** ROTR^6 ^ ROTR^11 ^ ROTR^25 */
  function BigSigma1(x: bv32): bv32 {
    ((x >> 6) | (x << 26)) ^ ((x >> 11) | (x << 21)) ^ ((x >> 25) | (x << 7))
  }

  /** ROTR^7 ^ ROTR^18 ^ SHR^3 */
  function SmallSigma0(x: bv32): bv32 {
    ((x >> 7) | (x << 25)) ^ ((x >> 18) | (x << 14)) ^ (x >> 3)
  }

  /** ROTR^17 ^ ROTR^19 ^ SHR^10 */
  function SmallSigma1(x: bv32): bv32 {
    ((x >> 17) | (x << 15)) ^ ((x >> 19) | (x << 13)) ^ (x >> 10)
  }

  // Section 5.1.1: padding a message of fewer than 56 bytes into one block.

  /** The 32-bit word of a non-negative integer (its value modulo 2^32). */
  function Word32(n: nat): bv32 {
    if n == 0 then 0 else Word32(n - 1) + 1
  }

  /** The length of a message of n bytes, in bits, as a 32-bit word. */
  function BitLength(n: nat): bv32 {
    Word32(n) << 3
  }

  /** The bit length of a message of n bytes as a 64-bit big-endian block of
      eight bytes; below 2^32 bits its upper four bytes are zero. */
  function LengthBytes(n: nat): (r: seq<bv8>)
    ensures |r| == 8
  {
    [0, 0, 0, 0] + BigEndian32(BitLength(n))
  }

  /** The four bytes of a word, most significant first. */
  function BigEndian32(w: bv32): (r: seq<bv8>)
    ensures |r| == 4
  {
    [((w >> 24) & 0xff) as bv8, ((w >> 16) & 0xff) as bv8, ((w >> 8) & 0xff) as bv8, (w & 0xff) as bv8]
  }

  /** The message, the bit 1 (as byte 0x80), zero bytes and the 64-bit length. */
  function PaddedMessage(m: seq<bv8>): (p: seq<bv8>)
    requires |m| < 56
    ensures |p| == 64
    ensures p[..|m|] == m && p[|m|] == 0x80
    ensures forall i :: |m| < i < 56 ==> p[i] == 0
    ensures p[56..] == LengthBytes(|m|)
  {
    m + [0x80] + seq(55 - |m|, _ => 0) + LengthBytes(|m|)
  }

  // Section 5.2.1: parsing the padded message into sixteen big-endian words.

  function WordOf(b0: bv8, b1: bv8, b2: bv8, b3: bv8): bv32 {
    ((b0 as bv32) << 24) | ((b1 as bv32) << 16) | ((b2 as bv32) << 8) | (b3 as bv32)
  }

  /** Byte `pos` (0 = most significant) of a big-endian word. */
  function ByteOf(w: bv32, pos: nat): bv8
    requires pos < 4
  {
    if pos == 0 then ((w >> 24) & 0xff) as bv8
    else if pos == 1 then ((w >> 16) & 0xff) as bv8
    else if pos == 2 then ((w >> 8) & 0xff) as bv8
    else (w & 0xff) as bv8
  }

  function Parse(p: seq<bv8>): (block: seq<bv32>)
    requires |p| == 64
    ensures |block| == 16
  {
    seq(16, k requires 0 <= k < 16 => WordOf(p[4 * k], p[4 * k + 1], p[4 * k + 2], p[4 * k + 3]))
  }

  // Section 6.2.2, step 1: the message schedule.

  /** The recurrence of step 1 for word t, over the words before it. */
  function NextWord(w: seq<bv32>, t: nat): bv32
    requires 16 <= t <= |w|
  {
    SmallSigma1(w[t - 2]) + w[t - 7] + SmallSigma0(w[t - 15]) + w[t - 16]
  }

  /** The first n words of the schedule of a 16-word block. */
  function ScheduleUpTo(block: seq<bv32>, n: nat): (w: seq<bv32>)
    requires |block| == 16 && 16 <= n <= 64
    ensures |w| == n && w[..16] == block
  {
    if n == 16 then block
    else
      var w := ScheduleUpTo(block, n - 1);
      w + [NextWord(w, n - 1)]
  }

  function Schedule(block: seq<bv32>): (w: seq<bv32>)
    requires |block| == 16
    ensures |w| == 64
  {
    ScheduleUpTo(block, 64)
  }

  // Section 6.2.2, steps 2 and 3: the working variables and the 64 rounds.

  datatype Vars = Vars(a: bv32, b: bv32, c: bv32, d: bv32, e: bv32, f: bv32, g: bv32, h: bv32)

  const Initial: Vars := Vars(H0[0], H0[1], H0[2], H0[3], H0[4], H0[5], H0[6], H0[7])

  /** The temporary word T1 of round t, with constant kt and schedule word wt. */
  function T1(e: bv32, f: bv32, g: bv32, h: bv32, kt: bv32, wt: bv32): bv32 {
    h + BigSigma1(e) + Ch(e, f, g) + kt + wt
  }

  /** The temporary word T2 of a round. */
  function T2(a: bv32, b: bv32, c: bv32): bv32 {
    BigSigma0(a) + Maj(a, b, c)
  }

  /** Addition modulo 2^32 (section 3.2, item 1). */
  function Add(x: bv32, y: bv32): bv32 {
    x + y
  }

  /** One round t with constant kt and schedule word wt. */
  function Round(v: Vars, kt: bv32, wt: bv32): Vars {
    var t1 := T1(v.e, v.f, v.g, v.h, kt, wt);
    var t2 := T2(v.a, v.b, v.c);
    Vars(Add(t1, t2), v.a, v.b, v.c, Add(v.d, t1), v.e, v.f, v.g)
  }

  /** The working variables after the first n rounds over schedule w. */
  function Rounds(w: seq<bv32>, n: nat): Vars
    requires |w| == 64 && n <= 64
  {
    if n == 0 then Initial else Round(Rounds(w, n - 1), K[n - 1], w[n - 1])
  }

  // Section 6.2.2, step 4: the intermediate (here final) hash value.

  function AsWords(v: Vars): (r: seq<bv32>)
    ensures |r| == 8
  {
    [v.a, v.b, v.c, v.d, v.e, v.f, v.g, v.h]
  }

  /** The hash value after the last round: H0 added word by word. */
  function Feed(v: Vars): (r: seq<bv32>)
    ensures |r| == 8
  {
    var x := AsWords(v);
    seq(8, j requires 0 <= j < 8 => Add(H0[j], x[j]))
  }

  /** The hash value of one block: the rounds over its schedule, fed forward. */
  function Digest(block: seq<bv32>): (r: seq<bv32>)
    requires |block| == 16
    ensures |r| == 8
  {
    Feed(Rounds(Schedule(block), 64))
  }

  /** SHA-256 of a message short enough for a single block. */
  function Hash(m: seq<bv8>): (r: seq<bv32>)
    requires |m| < 56
    ensures |r| == 8
  {
    Digest(Parse(PaddedMessage(m)))
  }

  /** Byte i of the padded message sits in word i / 4 at big-endian position i % 4. */
  lemma ParsedByte(p: seq<bv8>, i: nat)
    requires |p| == 64 && i < 64
    ensures ByteOf(Parse(p)[i / 4], i % 4) == p[i]
  {
    var k := i / 4;
    assert Parse(p)[k] == WordOf(p[4 * k], p[4 * k + 1], p[4 * k + 2], p[4 * k + 3]);
    WordOfBytes(p[4 * k], p[4 * k + 1], p[4 * k + 2], p[4 * k + 3], i % 4);
  }

  lemma WordOfBytes(b0: bv8, b1: bv8, b2: bv8, b3: bv8, pos: nat)
    requires pos < 4
    ensures ByteOf(WordOf(b0, b1, b2, b3), pos) == [b0, b1, b2, b3][pos]
  {
    var w := WordOf(b0, b1, b2, b3);
    if pos == 0 {
      assert ((w >> 24) & 0xff) as bv8 == b0;
    } else if pos == 1 {
      assert ((w >> 16) & 0xff) as bv8 == b1;
    } else if pos == 2 {
      assert ((w >> 8) & 0xff) as bv8 == b2;
    } else {
      assert (w & 0xff) as bv8 == b3;
    }
  }

  /** Section 5.1.1 laid out in the sixteen words: the 0x80 marker follows the
      message, every later byte up to the length field is zero, word 14 is zero
      and word 15 holds the bit length. */
  lemma PaddedBlockLayout(m: seq<bv8>)
    requires |m| < 56
    ensures ByteOf(Parse(PaddedMessage(m))[|m| / 4], |m| % 4) == 0x80
    ensures forall i :: |m| < i < 56 ==> ByteOf(Parse(PaddedMessage(m))[i / 4], i % 4) == 0
    ensures Parse(PaddedMessage(m))[14] == 0
    ensures Parse(PaddedMessage(m))[15] == BitLength(|m|)
  {
    var p := PaddedMessage(m);
    ParsedByte(p, |m|);
    forall i | |m| < i < 56
      ensures ByteOf(Parse(p)[i / 4], i % 4) == 0
    {
      ParsedByte(p, i);
    }
    var l := LengthBytes(|m|);
    assert p[56..] == l;
    assert Parse(p)[14] == WordOf(l[0], l[1], l[2], l[3]);
    assert Parse(p)[15] == WordOf(l[4], l[5], l[6], l[7]);
    WordOfBigEndian(BitLength(|m|));
  }

  /** Reading back the four bytes of a word gives the word. */
  lemma WordOfBigEndian(w: bv32)
    ensures var b := BigEndian32(w); WordOf(b[0], b[1], b[2], b[3]) == w
  {
    WordOfBytesOf(w);
  }

  lemma WordOfBytesOf(w: bv32)
    ensures WordOf(((w >> 24) & 0xff) as bv8, ((w >> 16) & 0xff) as bv8, ((w >> 8) & 0xff) as bv8, (w & 0xff) as bv8) == w
  {
  }
}
