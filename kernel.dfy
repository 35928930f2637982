/**
  The OpenCL kernel `process` of cracker/hashes.py, one work-item at a time:
  the kernel's own copies of the round constants and the initial hash value,
  the loading of the message block from the signed-char input buffer, the
  schedule loop, the 64 rounds over eight reassigned working variables and
  the write-back into the work-item's eight result slots. Each phase is a
  method proved against a function of FIPS 180-4 or of module Loading.
 */
module Kernel {
  import F = Fips180
  import L = Loading
  import M = Macros
  import P = Padding

  // The kernel's own tables (hashes.py lines 15-31).

  const K: seq<bv32> := [
    0x428a2f98, 0x71374491, 0xb5c0fbcf, 0xe9b5dba5, 0x3956c25b, 0x59f111f1,
    0x923f82a4, 0xab1c5ed5, 0xd807aa98, 0x12835b01, 0x243185be, 0x550c7dc3,
    0x72be5d74, 0x80deb1fe, 0x9bdc06a7, 0xc19bf174, 0xe49b69c1, 0xefbe4786,
    0x0fc19dc6, 0x240ca1cc, 0x2de92c6f, 0x4a7484aa, 0x5cb0a9dc, 0x76f988da,
    0x983e5152, 0xa831c66d, 0xb00327c8, 0xbf597fc7, 0xc6e00bf3, 0xd5a79147,
    0x06ca6351, 0x14292967, 0x27b70a85, 0x2e1b2138, 0x4d2c6dfc, 0x53380d13,
    0x650a7354, 0x766a0abb, 0x81c2c92e, 0x92722c85, 0xa2bfe8a1, 0xa81a664b,
    0xc24b8b70, 0xc76c51a3, 0xd192e819, 0xd6990624, 0xf40e3585, 0x106aa070,
    0x19a4c116, 0x1e376c08, 0x2748774c, 0x34b0bcb5, 0x391c0cb3, 0x4ed8aa4a,
    0x5b9cca4f, 0x682e6ff3, 0x748f82ee, 0x78a5636f, 0x84c87814, 0x8cc70208,
    0x90befffa, 0xa4506ceb, 0xbef9a3f7, 0xc67178f2
  ]

  const H: seq<bv32> := [
    0x6a09e667, 0xbb67ae85, 0x3c6ef372, 0xa54ff53a, 0x510e527f, 0x9b05688c,
    0x1f83d9ab, 0x5be0cd19
  ]


  /** The kernel's tables are those of sections 4.2.2 and 5.3.3 of FIPS 180-4. */
  lemma TablesAgree()
    ensures K == F.K && H == F.H0
  {
  }

  /** The loading loop and the two stores after it (lines 44-50): a fresh
      64-word array whose first sixteen words are the block of the `length`
      bytes at `offset`. A byte is read only while `inc` is 1. */
  method LoadBlock(input: array<bv8>, offset: nat, length: nat) returns (w: array<bv32>)
    requires length < 256 && offset + length <= input.Length
    ensures fresh(w) && w.Length == 64
    ensures w[..16] == L.Block(input[offset..offset + length])
  {
    ghost var msg := input[offset..offset + length];
    ghost var v := L.Widened(msg);
    w := new bv32[64];
    var i := 0;
    while i < 64
      invariant 0 <= i <= 64
      invariant L.LoadedUpTo(v, w[..], i)
    {
      ghost var ws := w[..];
      var inc: bv32 := if i < length then 1 else 0;
      var x: bv32 := if inc == 1 then L.SignExtend(input[offset + i]) else 0;
      assert x == v[i];
      w[i] := 0;
      assert w[..] == ws[i := 0];
      w[i / 4] := w[i / 4] | L.Place(x, i % 4);
      assert w[..] == ws[i := 0][i / 4 := w[i / 4]];
      L.LoadStepOf(ws, i, x, w[i / 4]);
      L.LoadStepKeeps(v, ws, i);
      i := i + 1;
    }
    ghost var ws := w[..];
    w[length / 4] := w[length / 4] | L.Place(0x80, length % 4);
    ghost var m := w[length / 4];
    assert w[..] == ws[length / 4 := m];
    w[15] := w[15] | (F.Word32(length) << 3);
    assert w[..] == ws[length / 4 := m][15 := w[15]];
    L.FinishOf(ws, length, m, w[15]);
    L.FinishIsBlock(msg, ws);
  }

  /** The schedule loop (lines 53-57): words 16 to 63 of w become the message
      schedule of section 6.2.2, step 1, of the block in words 0 to 15, which
      are left as they are. */
  method ExpandSchedule(w: array<bv32>)
    requires w.Length == 64
    modifies w
    ensures w[..] == F.Schedule(old(w[..16]))
  {
    ghost var block := w[..16];
    var i := 16;
    while i < 64
      invariant 16 <= i <= 64
      invariant w[..i] == F.ScheduleUpTo(block, i)
    {
      ScheduleWord(w, i, block);
      i := i + 1;
    }
    assert w[..] == w[..64];
  }

  /** One pass of the schedule loop: word i from the words before it. */
  method ScheduleWord(w: array<bv32>, i: nat, ghost block: seq<bv32>)
    requires w.Length == 64 && 16 <= i < 64 && |block| == 16
    requires w[..i] == F.ScheduleUpTo(block, i)
    modifies w
    ensures w[..i + 1] == F.ScheduleUpTo(block, i + 1)
  {
    ghost var prefix := w[..i];
    var s0 := M.ScheduleS0(w[i - 15]);
    var s1 := M.ScheduleS1(w[i - 2]);
    ScheduleWordAgrees(prefix, i);
    w[i] := ScheduleSum(w[i - 16], s0, w[i - 7], s1);
    assert w[..i + 1] == prefix + [F.NextWord(prefix, i)];
    ScheduleStep(block, prefix, i);
  }

  /** `(w[i-16] + s0 + w[i-7] + s1) & 0xffffffff` (line 56). */
  function ScheduleSum(w16: bv32, s0: bv32, w7: bv32, s1: bv32): bv32 {
    (w16 + s0 + w7 + s1) & 0xffff_ffff
  }

  /** Lines 54-56 compute the recurrence of step 1 of section 6.2.2. */
  lemma ScheduleWordAgrees(ws: seq<bv32>, t: nat)
    requires 16 <= t <= |ws|
    ensures F.NextWord(ws, t) == ScheduleSum(ws[t - 16], M.ScheduleS0(ws[t - 15]), ws[t - 7], M.ScheduleS1(ws[t - 2]))
  {
    M.ScheduleS0IsSigma0(ws[t - 15]);
    M.ScheduleS1IsSigma1(ws[t - 2]);
    NextWordIsSum(ws, t);
  }

  /** The sum of line 56 over σ0 and σ1 is the recurrence's sum. */
  lemma NextWordIsSum(ws: seq<bv32>, t: nat)
    requires 16 <= t <= |ws|
    ensures F.NextWord(ws, t) == ScheduleSum(ws[t - 16], F.SmallSigma0(ws[t - 15]), ws[t - 7], F.SmallSigma1(ws[t - 2]))
  {
  }

  /** One more word of the schedule. */
  lemma ScheduleStep(block: seq<bv32>, ws: seq<bv32>, i: nat)
    requires |block| == 16 && 16 <= i < 64 && ws == F.ScheduleUpTo(block, i)
    ensures ws + [F.NextWord(ws, i)] == F.ScheduleUpTo(block, i + 1)
  {
  }

  /** The 64 rounds (lines 59-86): the eight working variables, starting from
      the kernel's H, end as the working variables of section 6.2.2, step 3,
      over the schedule in w. */
  method Compress(w: array<bv32>) returns (v: F.Vars)
    requires w.Length == 64
    ensures v == F.Rounds(w[..], 64)
  {
    TablesAgree();
    var a, b, c, d, e, f, g, h := H[0], H[1], H[2], H[3], H[4], H[5], H[6], H[7];
    var i := 0;
    while i < 64
      invariant 0 <= i <= 64
      invariant F.Vars(a, b, c, d, e, f, g, h) == F.Rounds(w[..], i)
    {
      var S0 := M.RoundS0(a);
      var S1 := M.RoundS1(e);
      var maj := M.Ma(a, b, c);
      var ch := M.Ch(e, f, g);
      var temp1 := Temp1(h, S1, ch, K[i], w[i]);
      var temp2 := Temp2(S0, maj);
      RoundAgrees(a, b, c, d, e, f, g, h, K[i], w[i]);
      h := g;
      g := f;
      f := e;
      e := MaskedSum(d, temp1);
      d := c;
      c := b;
      b := a;
      a := MaskedSum(temp1, temp2);
      i := i + 1;
    }
    v := F.Vars(a, b, c, d, e, f, g, h);
  }

  /** `(h + S1 + ch + K[i] + w[i]) & 0xffffffff` (line 75). */
  function Temp1(h: bv32, s1: bv32, ch: bv32, k: bv32, wi: bv32): bv32 {
    (h + s1 + ch + k + wi) & 0xffff_ffff
  }

  /** `S0 + maj` (line 76). */
  function Temp2(s0: bv32, maj: bv32): bv32 {
    s0 + maj
  }

  /** `(x + y) & 0xffffffff`, the new e and a (lines 81 and 85). */
  function MaskedSum(x: bv32, y: bv32): bv32 {
    (x + y) & 0xffff_ffff
  }

  /** One pass of the round loop is one round of section 6.2.2, step 3. */
  lemma RoundAgrees(a: bv32, b: bv32, c: bv32, d: bv32, e: bv32, f: bv32, g: bv32, h: bv32, kt: bv32, wt: bv32)
    ensures
      var temp1 := Temp1(h, M.RoundS1(e), M.Ch(e, f, g), kt, wt);
      var temp2 := Temp2(M.RoundS0(a), M.Ma(a, b, c));
      F.Round(F.Vars(a, b, c, d, e, f, g, h), kt, wt) == F.Vars(MaskedSum(temp1, temp2), a, b, c, MaskedSum(d, temp1), e, f, g)
  {
    Temp1Agrees(e, f, g, h, kt, wt);
    Temp2Agrees(a, b, c);
    RoundOfTemps(a, b, c, d, e, f, g, h, kt, wt);
  }

  /** temp1 of line 75 is T1. */
  lemma Temp1Agrees(e: bv32, f: bv32, g: bv32, h: bv32, kt: bv32, wt: bv32)
    ensures Temp1(h, M.RoundS1(e), M.Ch(e, f, g), kt, wt) == F.T1(e, f, g, h, kt, wt)
  {
    M.RoundS1IsSigma1(e);
    M.ChIsCh(e, f, g);
    T1IsTemp1(e, f, g, h, kt, wt);
  }

  /** temp2 of line 76 is T2. */
  lemma Temp2Agrees(a: bv32, b: bv32, c: bv32)
    ensures Temp2(M.RoundS0(a), M.Ma(a, b, c)) == F.T2(a, b, c)
  {
    M.RoundS0IsSigma0(a);
    M.MaIsMaj(a, b, c);
    T2IsTemp2(a, b, c);
  }

  /** The new a and e of lines 81 and 85, over T1 and T2, are those of a round. */
  lemma RoundOfTemps(a: bv32, b: bv32, c: bv32, d: bv32, e: bv32, f: bv32, g: bv32, h: bv32, kt: bv32, wt: bv32)
    ensures
      var t1 := F.T1(e, f, g, h, kt, wt);
      var t2 := F.T2(a, b, c);
      F.Round(F.Vars(a, b, c, d, e, f, g, h), kt, wt) == F.Vars(MaskedSum(t1, t2), a, b, c, MaskedSum(d, t1), e, f, g)
  {
    MaskedSumIsSum(F.T1(e, f, g, h, kt, wt), F.T2(a, b, c));
    MaskedSumIsSum(d, F.T1(e, f, g, h, kt, wt));
  }

  /** Line 75 over Σ1 and Ch computes T1. */
  lemma T1IsTemp1(e: bv32, f: bv32, g: bv32, h: bv32, kt: bv32, wt: bv32)
    ensures F.T1(e, f, g, h, kt, wt) == Temp1(h, F.BigSigma1(e), F.Ch(e, f, g), kt, wt)
  {
  }

  /** Line 76 over Σ0 and Maj computes T2. */
  lemma T2IsTemp2(a: bv32, b: bv32, c: bv32)
    ensures F.T2(a, b, c) == Temp2(F.BigSigma0(a), F.Maj(a, b, c))
  {
  }

  /** The mask is the identity on 32-bit words: the sum is addition modulo 2^32. */
  lemma MaskedSumIsSum(x: bv32, y: bv32)
    ensures MaskedSum(x, y) == F.Add(x, y)
  {
  }

  /** `int length = size[gid]` reads a `uint`; lengths are whole numbers. */
  newtype Uint32 = x: int | 0 <= x < 0x1_0000_0000

  /** The kernel `process` run by work-item gid (lines 33-96). It reads its
      length from size[gid] and its bytes from input at gid * length, and
      writes the digest of their block into result[gid*8] to result[gid*8+7]
      and nowhere else (Hashes shows that for fewer than 56 bytes, all below
      0x80, this is their SHA-256). */
  method Process(input: array<bv8>, size: array<Uint32>, result: array<bv32>, gid: nat)
    requires gid < size.Length && size[gid] < 256
    requires gid * (size[gid] as int) + size[gid] as int <= input.Length
    requires gid * 8 + 8 <= result.Length
    modifies result
    ensures
      var length := old(size[gid]) as int;
      result[gid * 8..gid * 8 + 8] == F.Digest(L.Block(old(input[gid * length..gid * length + length])))
    ensures result[..gid * 8] == old(result[..gid * 8]) && result[gid * 8 + 8..] == old(result[gid * 8 + 8..])
  {
    var length := size[gid] as int;
    HashRow(input, gid * length, length, result, gid * 8);
  }

  /** `process` with the offset the host's layout calls for: the host packs
      the words at a fixed stride (the longest word's length), so work-item
      gid finds its bytes at gid * stride, passed as a fourth argument. */
  method StridedProcess(input: array<bv8>, size: array<Uint32>, stride: nat, result: array<bv32>, gid: nat)
    requires gid < size.Length && size[gid] < 256 && size[gid] as int <= stride
    requires gid * stride + stride <= input.Length
    requires gid * 8 + 8 <= result.Length
    modifies result
    ensures
      var length := old(size[gid]) as int;
      result[gid * 8..gid * 8 + 8] == F.Digest(L.Block(old(input[gid * stride..gid * stride + length])))
    ensures result[..gid * 8] == old(result[..gid * 8]) && result[gid * 8 + 8..] == old(result[gid * 8 + 8..])
  {
    var length := size[gid] as int;
    HashRow(input, gid * stride, length, result, gid * 8);
  }

  /** The body of `process` once the offset of the bytes and the slot of the
      row are known: load, expand, compress, store. */
  method HashRow(input: array<bv8>, offset: nat, length: nat, result: array<bv32>, base: nat)
    requires length < 256 && offset + length <= input.Length
    requires base + 8 <= result.Length
    modifies result
    ensures result[base..base + 8] == F.Digest(L.Block(old(input[offset..offset + length])))
    ensures result[..base] == old(result[..base]) && result[base + 8..] == old(result[base + 8..])
  {
    var w := LoadBlock(input, offset, length);
    ExpandSchedule(w);
    var v := Compress(w);
    StoreResult(result, base, v);
  }

  /** The eight stores of lines 88-95 at base = gid * 8: the hash value of
      section 6.2.2, step 4, over the working variables v, and no other slot. */
  method StoreResult(result: array<bv32>, base: nat, v: F.Vars)
    requires base + 8 <= result.Length
    modifies result
    ensures result[base..base + 8] == F.Feed(v)
    ensures result[..base] == old(result[..base]) && result[base + 8..] == old(result[base + 8..])
  {
    ghost var r := result[..];
    var a, b, c, d, e, f, g, h := v.a, v.b, v.c, v.d, v.e, v.f, v.g, v.h;
    result[base + 0] := FeedWord(H[0], a);
    ghost var x0 := result[base + 0];
    assert result[..] == r[base := x0];
    result[base + 1] := FeedWord(H[1], b);
    ghost var x1 := result[base + 1];
    assert result[..] == r[base := x0][base + 1 := x1];
    result[base + 2] := FeedWord(H[2], c);
    ghost var x2 := result[base + 2];
    assert result[..] == r[base := x0][base + 1 := x1][base + 2 := x2];
    result[base + 3] := FeedWord(H[3], d);
    ghost var x3 := result[base + 3];
    assert result[..] == r[base := x0][base + 1 := x1][base + 2 := x2][base + 3 := x3];
    result[base + 4] := FeedWord(H[4], e);
    ghost var x4 := result[base + 4];
    assert result[..] == r[base := x0][base + 1 := x1][base + 2 := x2][base + 3 := x3][base + 4 := x4];
    result[base + 5] := FeedWord(H[5], f);
    ghost var x5 := result[base + 5];
    assert result[..] == r[base := x0][base + 1 := x1][base + 2 := x2][base + 3 := x3][base + 4 := x4][base + 5 := x5];
    result[base + 6] := FeedWord(H[6], g);
    ghost var x6 := result[base + 6];
    assert result[..] == r[base := x0][base + 1 := x1][base + 2 := x2][base + 3 := x3][base + 4 := x4][base + 5 := x5][base + 6 := x6];
    result[base + 7] := FeedWord(H[7], h);
    ghost var x7 := result[base + 7];
    ghost var xs := [x0, x1, x2, x3, x4, x5, x6, x7];
    assert result[..] == Stored(r, base, xs);
    StoredSlot(r, base, xs);
    StoredKeeps(r, base, xs);
    assert xs == FeedWords(v);
    FeedWordsAgree(v);
  }

  /** r with the eight words xs written from base on. */
  function Stored(r: seq<bv32>, base: nat, xs: seq<bv32>): seq<bv32>
    requires base + 8 <= |r| && |xs| == 8
  {
    r[base := xs[0]][base + 1 := xs[1]][base + 2 := xs[2]][base + 3 := xs[3]]
     [base + 4 := xs[4]][base + 5 := xs[5]][base + 6 := xs[6]][base + 7 := xs[7]]
  }

  lemma StoredSlot(r: seq<bv32>, base: nat, xs: seq<bv32>)
    requires base + 8 <= |r| && |xs| == 8
    ensures Stored(r, base, xs)[base..base + 8] == xs
  {
  }

  lemma StoredKeeps(r: seq<bv32>, base: nat, xs: seq<bv32>)
    requires base + 8 <= |r| && |xs| == 8
    ensures |Stored(r, base, xs)| == |r|
    ensures Stored(r, base, xs)[..base] == r[..base] && Stored(r, base, xs)[base + 8..] == r[base + 8..]
  {
  }

  /** The eight words that lines 88-95 store. */
  function FeedWords(v: F.Vars): (r: seq<bv32>)
    ensures |r| == 8
  {
    [FeedWord(H[0], v.a), FeedWord(H[1], v.b), FeedWord(H[2], v.c), FeedWord(H[3], v.d),
     FeedWord(H[4], v.e), FeedWord(H[5], v.f), FeedWord(H[6], v.g), FeedWord(H[7], v.h)]
  }

  /** `H[j] + var` (lines 88-95). */
  function FeedWord(hj: bv32, x: bv32): bv32 {
    hj + x
  }

  lemma FeedWordIsAdd(hj: bv32, x: bv32)
    ensures FeedWord(hj, x) == F.Add(hj, x)
  {
  }

  /** The eight sums of lines 88-95 are the hash value of step 4. */
  lemma FeedWordsAgree(v: F.Vars)
    ensures F.Feed(v) == FeedWords(v)
  {
    TablesAgree();
    FeedWordIsAdd(H[0], v.a);
    FeedWordIsAdd(H[1], v.b);
    FeedWordIsAdd(H[2], v.c);
    FeedWordIsAdd(H[3], v.d);
    FeedWordIsAdd(H[4], v.e);
    FeedWordIsAdd(H[5], v.f);
    FeedWordIsAdd(H[6], v.g);
    FeedWordIsAdd(H[7], v.h);
  }

  /** For a message of fewer than 56 bytes, all below 0x80, the digest the
      kernel writes is its SHA-256 (section 6.2 of FIPS 180-4). */
  lemma Hashes(msg: seq<bv8>)
    requires |msg| < 56 && L.IsAscii(msg)
    ensures F.Digest(L.Block(msg)) == F.Hash(msg)
  {
    P.BlockIsPadding(msg);
  }
}
