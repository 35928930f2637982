/**
  The message block that the first loop of the OpenCL kernel in
  cracker/hashes.py builds (lines 44-50), as a function of the candidate's
  bytes, and its agreement with the padding and parsing of sections 5.1.1
  and 5.2.1 of FIPS 180-4 when every byte is below 0x80.

  The input buffer is `char *`, and OpenCL C defines `char` as a signed
  8-bit integer on every device: the product `input[...] * inc` widens a
  byte of 0x80 or more to 0xffffff80 and up, whose high bits land in the
  lanes of the earlier bytes of the same word.
 */
module Loading {
  import F = Fips180


  /** A signed `char` widened to `uint`. */
  function SignExtend(c: bv8): bv32 {
    if c < 0x80 then c as bv32 else (c as bv32) | 0xffff_ff00
  }

  /** `x << (8 * (3 - pos))`: the byte lane of position pos of a big-endian word. */
  function Place(x: bv32, pos: nat): bv32
    requires pos < 4
  {
    if pos == 0 then x << 24
    else if pos == 1 then x << 16
    else if pos == 2 then x << 8
    else x
  }

  /** What iteration j of the loading loop merges: the widened byte while
      `inc` is 1 (j below the length), zero afterwards. */
  function ByteAt(msg: seq<bv8>, j: nat): bv32 {
    if j < |msg| then SignExtend(msg[j]) else 0
  }

  /** The values merged by the 64 iterations of the loading loop. */
  function Widened(msg: seq<bv8>): (v: seq<bv32>)
    ensures |v| == 64
  {
    seq(64, j requires 0 <= j < 64 => ByteAt(msg, j))
  }

  /** Four byte lanes assembled into a word, most significant first. */
  function Word4(x0: bv32, x1: bv32, x2: bv32, x3: bv32): bv32 {
    (x0 << 24) | (x1 << 16) | (x2 << 8) | x3
  }

  /** Lane j of word k holds value 4k + j once the loop has merged it. */
  function LaneIf(v: seq<bv32>, k: nat, j: nat, n: nat): bv32
    requires 4 * k + 4 <= |v| && j < 4
  {
    if j < n then v[4 * k + j] else 0
  }

  /** Word k once the loop has merged its first n byte lanes. */
  function Lanes(v: seq<bv32>, k: nat, n: nat): bv32
    requires 4 * k + 4 <= |v|
  {
    Word4(LaneIf(v, k, 0, n), LaneIf(v, k, 1, n), LaneIf(v, k, 2, n), LaneIf(v, k, 3, n))
  }

  /** The number of lanes of word k merged after i iterations of the loop. */
  function Filled(i: nat, k: nat): (n: nat)
    ensures n <= 4
    ensures 4 * k + 4 <= i ==> n == 4
    ensures i <= 4 * k ==> n == 0
  {
    if i <= 4 * k then 0 else if i >= 4 * k + 4 then 4 else i - 4 * k
  }

  /** The sixteen words after lines 44-50: the merged bytes, the 0x80
      marker at the length (line 49) and the bit length in word 15 (line 50). */
  function Block(msg: seq<bv8>): (block: seq<bv32>)
    requires |msg| < 256
    ensures |block| == 16
  {
    seq(16, k requires 0 <= k < 16 => BlockWord(msg, k))
  }

  function BlockWord(msg: seq<bv8>, k: nat): bv32
    requires |msg| < 256 && k < 16
  {
    Stored(Lanes(Widened(msg), k, 4), |msg|, k)
  }

  /** Word k holding x after the loop, once lines 49 and 50 have stored the
      marker and the length. */
  function Stored(x: bv32, length: nat, k: nat): bv32
    requires length < 256 && k < 16
  {
    x | (if k == length / 4 then Place(0x80, length % 4) else 0) | LengthField(length, k)
  }

  /** `length << 3`, ORed into word 15 only. */
  function LengthField(length: nat, k: nat): bv32
    requires length < 256
  {
    if k == 15 then F.BitLength(length) else 0
  }

  /** The lanes of the block apart from the length field: each widened
      byte, then the 0x80 marker, then zeros. */
  function PadLanes(msg: seq<bv8>): (v: seq<bv32>)
    ensures |v| == 64
  {
    seq(64, j requires 0 <= j < 64 => if j < |msg| then SignExtend(msg[j]) else if j == |msg| then 0x80 else 0)
  }

  predicate IsAscii(msg: seq<bv8>) {
    forall i :: 0 <= i < |msg| ==> msg[i] < 0x80
  }

  /** A byte below 0x80 widens to itself. */
  lemma AsciiWidens(c: bv8)
    requires c < 0x80
    ensures SignExtend(c) == c as bv32
  {
  }

  /** No lane merged: the zero the loop starts each word with. */
  lemma NoLanes(v: seq<bv32>, k: nat)
    requires 4 * k + 4 <= |v|
    ensures Lanes(v, k, 0) == 0
  {
  }

  /** One more iteration of the loading loop merges the next lane. */
  lemma LanesStep(v: seq<bv32>, k: nat, n: nat)
    requires n < 4 && 4 * k + 4 <= |v|
    ensures Lanes(v, k, n + 1) == Lanes(v, k, n) | Place(v[4 * k + n], n)
  {
    if n == 0 {
      Fill0(v[4 * k]);
    } else if n == 1 {
      Fill1(v[4 * k], v[4 * k + 1]);
    } else if n == 2 {
      Fill2(v[4 * k], v[4 * k + 1], v[4 * k + 2]);
    } else {
      Fill3(v[4 * k], v[4 * k + 1], v[4 * k + 2], v[4 * k + 3]);
    }
  }

  // Merging a value into the first empty lane of an assembled word.

  lemma Fill0(y: bv32)
    ensures Word4(0, 0, 0, 0) | Place(y, 0) == Word4(y, 0, 0, 0)
  {
  }

  lemma Fill1(x0: bv32, y: bv32)
    ensures Word4(x0, 0, 0, 0) | Place(y, 1) == Word4(x0, y, 0, 0)
  {
  }

  lemma Fill2(x0: bv32, x1: bv32, y: bv32)
    ensures Word4(x0, x1, 0, 0) | Place(y, 2) == Word4(x0, x1, y, 0)
  {
  }

  lemma Fill3(x0: bv32, x1: bv32, x2: bv32, y: bv32)
    ensures Word4(x0, x1, x2, 0) | Place(y, 3) == Word4(x0, x1, x2, y)
  {
  }

  lemma OrZero(x: bv32)
    ensures x | 0 == x
  {
  }

  /** Word |msg| / 4 after line 49: the marker fills the lane after the
      last byte. */
  lemma MarkerWord(msg: seq<bv8>)
    requires |msg| < 64
    ensures Lanes(Widened(msg), |msg| / 4, 4) | Place(0x80, |msg| % 4) == Lanes(PadLanes(msg), |msg| / 4, 4)
  {
    var v, p, k, r := Widened(msg), PadLanes(msg), |msg| / 4, |msg| % 4;
    if r == 0 {
      Fill0(0x80);
    } else if r == 1 {
      Fill1(v[4 * k], 0x80);
    } else if r == 2 {
      Fill2(v[4 * k], v[4 * k + 1], 0x80);
    } else {
      Fill3(v[4 * k], v[4 * k + 1], v[4 * k + 2], 0x80);
    }
  }

  /** Message packing and the 0x80 marker (lines 44-49): word k of the block
      holds lanes 4k..4k+3 of PadLanes in big-endian order, and word 15 also
      the bit length. */
  lemma BlockLanes(msg: seq<bv8>, k: nat)
    requires |msg| < 256 && k < 16
    ensures BlockWord(msg, k) == Lanes(PadLanes(msg), k, 4) | LengthField(|msg|, k)
  {
    if k == |msg| / 4 {
      MarkerBlockWord(msg, k);
    } else {
      PlainBlockWord(msg, k);
    }
  }

  lemma MarkerBlockWord(msg: seq<bv8>, k: nat)
    requires |msg| < 256 && k < 16 && k == |msg| / 4
    ensures BlockWord(msg, k) == Lanes(PadLanes(msg), k, 4) | LengthField(|msg|, k)
  {
    MarkerWord(msg);
  }

  lemma PlainBlockWord(msg: seq<bv8>, k: nat)
    requires |msg| < 256 && k < 16 && k != |msg| / 4
    ensures BlockWord(msg, k) == Lanes(PadLanes(msg), k, 4) | LengthField(|msg|, k)
  {
    var v, p := Widened(msg), PadLanes(msg);
    assert forall j :: 4 * k <= j < 4 * k + 4 ==> p[j] == v[j];
    assert Lanes(p, k, 4) == Lanes(v, k, 4);
    OrZero(Lanes(v, k, 4));
  }

  // The loading loop over a 64-word array `ws`, one iteration at a time.

  /** After i iterations every word below 16 holds the lanes merged so far. */
  predicate LoadedUpTo(v: seq<bv32>, ws: seq<bv32>, i: nat)
    requires |v| == 64
  {
    |ws| == 64 && forall k :: 0 <= k < 16 && k < i ==> ws[k] == Lanes(v, k, Filled(i, k))
  }

  /** Iteration i: `w[i] = 0`, then the value x merged into word i / 4. */
  function LoadStep(ws: seq<bv32>, i: nat, x: bv32): (r: seq<bv32>)
    requires i < |ws|
    ensures |r| == |ws|
  {
    var z := ws[i := 0];
    z[i / 4 := z[i / 4] | Place(x, i % 4)]
  }

  /** The two stores after the loop: the marker (line 49) and the length (line 50). */
  function Finish(ws: seq<bv32>, length: nat): (r: seq<bv32>)
    requires |ws| == 64 && length < 256
    ensures |r| == 64
  {
    var z := ws[length / 4 := ws[length / 4] | Place(0x80, length % 4)];
    z[15 := z[15] | LengthField(length, 15)]
  }

  /** Iteration i, with the merged word given by its value y. */
  lemma LoadStepOf(ws: seq<bv32>, i: nat, x: bv32, y: bv32)
    requires i < |ws| && y == ws[i := 0][i / 4] | Place(x, i % 4)
    ensures ws[i := 0][i / 4 := y] == LoadStep(ws, i, x)
  {
  }

  /** The two stores, with the stored words given by their values m and l. */
  lemma FinishOf(ws: seq<bv32>, length: nat, m: bv32, l: bv32)
    requires |ws| == 64 && length < 256
    requires m == ws[length / 4] | Place(0x80, length % 4)
    requires l == ws[length / 4 := m][15] | LengthField(length, 15)
    ensures ws[length / 4 := m][15 := l] == Finish(ws, length)
  {
  }

  /** The loop invariant of the loading loop is kept by one iteration. */
  lemma LoadStepKeeps(v: seq<bv32>, ws: seq<bv32>, i: nat)
    requires |v| == 64 && i < 64 && LoadedUpTo(v, ws, i)
    ensures LoadedUpTo(v, LoadStep(ws, i, v[i]), i + 1)
  {
    var r := LoadStep(ws, i, v[i]);
    forall k | 0 <= k < 16 && k < i + 1
      ensures r[k] == Lanes(v, k, Filled(i + 1, k))
    {
      if k == i / 4 {
        StepMerged(v, ws, i);
      } else if k == i {
        StepZeroed(v, ws, i);
      } else {
        assert r[k] == ws[k];
        assert Filled(i + 1, k) == Filled(i, k);
      }
    }
  }

  lemma StepMerged(v: seq<bv32>, ws: seq<bv32>, i: nat)
    requires |v| == 64 && i < 64 && LoadedUpTo(v, ws, i)
    ensures LoadStep(ws, i, v[i])[i / 4] == Lanes(v, i / 4, Filled(i + 1, i / 4))
  {
    var k, n := i / 4, i % 4;
    assert i == 4 * k + n && n < 4;
    assert Filled(i, k) == n && Filled(i + 1, k) == n + 1;
    var z := ws[i := 0];
    if i == 0 {
      NoLanes(v, 0);
    } else {
      assert z[k] == ws[k];
    }
    assert z[k] == Lanes(v, k, n);
    LoadStepAt(ws, i, v[i]);
    LanesStep(v, k, n);
  }

  /** Iteration i leaves word i / 4 as the zeroed words' entry with x merged. */
  lemma LoadStepAt(ws: seq<bv32>, i: nat, x: bv32)
    requires i < |ws|
    ensures LoadStep(ws, i, x)[i / 4] == ws[i := 0][i / 4] | Place(x, i % 4)
  {
  }

  lemma StepZeroed(v: seq<bv32>, ws: seq<bv32>, i: nat)
    requires |v| == 64 && 0 < i < 16 && LoadedUpTo(v, ws, i)
    ensures LoadStep(ws, i, v[i])[i] == Lanes(v, i, Filled(i + 1, i))
  {
    NoLanes(v, i);
  }

  /** After the loop and the two stores the first sixteen words are the block. */
  lemma FinishIsBlock(msg: seq<bv8>, ws: seq<bv32>)
    requires |msg| < 256 && LoadedUpTo(Widened(msg), ws, 64)
    ensures Finish(ws, |msg|)[..16] == Block(msg)
  {
    var r := Finish(ws, |msg|);
    forall k | 0 <= k < 16
      ensures r[k] == BlockWord(msg, k)
    {
      FinishedWord(msg, ws, k);
    }
  }

  lemma FinishedWord(msg: seq<bv8>, ws: seq<bv32>, k: nat)
    requires |msg| < 256 && LoadedUpTo(Widened(msg), ws, 64) && k < 16
    ensures Finish(ws, |msg|)[k] == BlockWord(msg, k)
  {
    FinishWordOf(ws, |msg|, k, Lanes(Widened(msg), k, 4));
  }

  /** Word k after the two stores, for any value x the loop left in it. */
  lemma FinishWordOf(ws: seq<bv32>, length: nat, k: nat, x: bv32)
    requires |ws| == 64 && length < 256 && k < 16 && ws[k] == x
    ensures Finish(ws, length)[k] == Stored(x, length, k)
  {
    if k == length / 4 && k == 15 {
      FinishMarkerLength(ws, length, x);
    } else if k == 15 {
      FinishLength(ws, length, x);
    } else if k == length / 4 {
      FinishMarker(ws, length, k, x);
    } else {
      FinishOther(ws, length, k, x);
    }
  }

  lemma FinishMarkerLength(ws: seq<bv32>, length: nat, x: bv32)
    requires |ws| == 64 && length < 256 && length / 4 == 15 && ws[15] == x
    ensures Finish(ws, length)[15] == Stored(x, length, 15)
  {
  }

  lemma FinishLength(ws: seq<bv32>, length: nat, x: bv32)
    requires |ws| == 64 && length < 256 && length / 4 != 15 && ws[15] == x
    ensures Finish(ws, length)[15] == Stored(x, length, 15)
  {
    OrZero(x);
  }

  lemma FinishMarker(ws: seq<bv32>, length: nat, k: nat, x: bv32)
    requires |ws| == 64 && length < 256 && k == length / 4 && k < 15 && ws[k] == x
    ensures Finish(ws, length)[k] == Stored(x, length, k)
  {
    MarkerStore(ws, length, k, x);
    StoredMarker(x, length, k);
  }

  lemma MarkerStore(ws: seq<bv32>, length: nat, k: nat, x: bv32)
    requires |ws| == 64 && length < 256 && k == length / 4 && k < 15 && ws[k] == x
    ensures Finish(ws, length)[k] == x | Place(0x80, length % 4)
  {
  }

  lemma StoredMarker(x: bv32, length: nat, k: nat)
    requires length < 256 && k == length / 4 && k < 15
    ensures Stored(x, length, k) == x | Place(0x80, length % 4)
  {
    OrZero(x | Place(0x80, length % 4));
  }

  lemma FinishOther(ws: seq<bv32>, length: nat, k: nat, x: bv32)
    requires |ws| == 64 && length < 256 && k != length / 4 && k < 15 && ws[k] == x
    ensures Finish(ws, length)[k] == Stored(x, length, k)
  {
    OrZero(x);
    OrZero(x | 0);
  }
}
