/**
  `_generate_hashes` (cracker/hashes.py lines 119-136) with the OpenCL
  buffers and the queue abstracted: the words are packed as numpy packs a
  list of byte strings, into one fixed-width array whose stride is the
  longest word's length (at least 1), padded with NUL bytes; the lengths
  are those of numpy's elements, which drop trailing NUL bytes; then the
  kernel runs once per index.

  Run as written, work-item gid reads its bytes at gid * length, its own
  length, and not at gid * stride where the host put them: GenerateHashes
  and RowMessage model that, and StrideMisreads shows a two-word list whose
  second row hashes the wrong bytes. StridedHashes is the batch the host
  evidently intends, each row the digest of its own word; the driver uses it.
 */
module Batch {
  import F = Fips180
  import L = Loading
  import K = Kernel

  type Word = seq<bv8>

  /** A numpy fixed-width byte string read back: trailing NUL bytes dropped. */
  function StripNul(w: Word): (r: Word)
    ensures r <= w && (|r| == 0 || r[|r| - 1] != 0)
    ensures forall i :: |r| <= i < |w| ==> w[i] == 0
  {
    if |w| > 0 && w[|w| - 1] == 0 then StripNul(w[..|w| - 1]) else w
  }

  /** The length of the longest word, 0 for no words. */
  function MaxLength(words: seq<Word>): (m: nat)
    ensures forall i :: 0 <= i < |words| ==> |words[i]| <= m
    ensures |words| == 0 ==> m == 0
    ensures |words| > 0 ==> exists i :: 0 <= i < |words| && |words[i]| == m
  {
    if |words| == 0 then 0
    else
      var m := MaxLength(words[..|words| - 1]);
      var last := |words[|words| - 1]|;
      if m < last then last else m
  }

  /** The item size of `np.array(wordlist)`: numpy gives a byte-string dtype
      as wide as the longest word, and at least one byte wide. */
  function Stride(words: seq<Word>): (s: nat)
    ensures s >= 1 && forall i :: 0 <= i < |words| ==> |words[i]| <= s
    ensures s == 1 || exists i :: 0 <= i < |words| && |words[i]| == s
  {
    if MaxLength(words) == 0 then 1 else MaxLength(words)
  }

  predicate Fits(words: seq<Word>, stride: nat) {
    forall i :: 0 <= i < |words| ==> |words[i]| <= stride
  }

  /** Byte t of word w in a slot of the array, NUL past its end. */
  function SlotByte(w: Word, t: nat): bv8 {
    if t < |w| then w[t] else 0
  }

  /** One slot of stride bytes holding w. */
  function Slot(w: Word, stride: nat): (r: seq<bv8>)
    ensures |r| == stride
  {
    seq(stride, t requires 0 <= t < stride => SlotByte(w, t))
  }

  /** The words laid out one per slot of stride bytes: |words| slots in all. */
  function Pack(words: seq<Word>, stride: nat): (p: seq<bv8>)
    requires Fits(words, stride)
    ensures |p| == Offset(|words|, stride)
  {
    if |words| == 0 then []
    else
      OffsetFront(|words| - 1, stride);
      Slot(words[0], stride) + Pack(words[1..], stride)
  }

  /** Where slot j starts when every slot is len bytes long: j * len,
      counted slot by slot. */
  function Offset(j: nat, len: nat): nat {
    if j == 0 then 0 else Offset(j - 1, len) + len
  }

  lemma {:induction false} OffsetIsProduct(j: nat, len: nat)
    ensures Offset(j, len) == j * len
  {
    if j > 0 {
      OffsetIsProduct(j - 1, len);
      assert j * len == (j - 1) * len + len;
    }
  }

  /** A slot of len bytes at slot index j < n ends within n slots of
      stride >= len bytes. */
  lemma {:induction false} OffsetBound(j: nat, n: nat, len: nat, stride: nat)
    requires j < n && len <= stride
    ensures Offset(j, len) + len <= Offset(n, stride)
  {
    if n == j + 1 {
      OffsetMono(j, len, stride);
    } else {
      OffsetBound(j, n - 1, len, stride);
    }
  }

  lemma {:induction false} OffsetMono(j: nat, len: nat, stride: nat)
    requires len <= stride
    ensures Offset(j, len) <= Offset(j, stride)
  {
    if j > 0 {
      OffsetMono(j - 1, len, stride);
    }
  }

  /** Offset(j + 1, len) counts the first slot first, as well. */
  lemma {:induction false} OffsetFront(j: nat, len: nat)
    ensures Offset(j + 1, len) == len + Offset(j, len)
  {
    if j > 0 {
      OffsetFront(j - 1, len);
    }
  }

  /** Slot i of the packed array starts at Offset(i, stride) and holds word i. */
  lemma {:induction false} PackAt(words: seq<Word>, stride: nat, i: nat, t: nat)
    requires Fits(words, stride) && i < |words| && t < stride
    ensures Offset(i, stride) + t < |Pack(words, stride)|
    ensures Pack(words, stride)[Offset(i, stride) + t] == SlotByte(words[i], t)
  {
    OffsetBound(i, |words|, stride, stride);
    var head, rest := Slot(words[0], stride), Pack(words[1..], stride);
    assert Pack(words, stride) == head + rest;
    if i == 0 {
      assert head[t] == SlotByte(words[0], t);
    } else {
      PackAt(words[1..], stride, i - 1, t);
      OffsetFront(i - 1, stride);
    }
  }

  /** The first len bytes of slot i are the first len bytes of word i. */
  lemma SlotPrefix(words: seq<Word>, stride: nat, i: nat, len: nat)
    requires Fits(words, stride) && i < |words| && len <= |words[i]|
    ensures Offset(i, stride) + len <= |Pack(words, stride)|
    ensures Pack(words, stride)[Offset(i, stride)..Offset(i, stride) + len] == words[i][..len]
  {
    OffsetBound(i, |words|, stride, stride);
    var p := Pack(words, stride);
    forall t | 0 <= t < len
      ensures p[Offset(i, stride)..Offset(i, stride) + len][t] == words[i][t]
    {
      PackAt(words, stride, i, t);
    }
  }

  /** `len(word)` of each element of the numpy array. */
  function Length(w: Word): nat {
    |StripNul(w)|
  }

  predicate Short(words: seq<Word>) {
    forall i :: 0 <= i < |words| ==> |words[i]| < 256
  }

  // As written: work-item gid reads at gid * length.

  /** The bytes work-item j hashes when it reads at j * length. */
  function RowMessage(words: seq<Word>, j: nat): (m: Word)
    requires j < |words|
    ensures |m| == Length(words[j]) <= |words[j]|
  {
    var stride, len := Stride(words), Length(words[j]);
    OffsetBound(j, |words|, len, stride);
    Pack(words, stride)[Offset(j, len)..Offset(j, len) + len]
  }

  /** The buffers `_generate_hashes` hands to the kernel. */
  method Buffers(words: seq<Word>) returns (input: array<bv8>, size: array<K.Uint32>, stride: nat)
    requires Short(words)
    ensures fresh(input) && fresh(size)
    ensures stride == Stride(words) && input[..] == Pack(words, stride)
    ensures size[..] == Sizes(words)
  {
    stride := Stride(words);
    var packed := Pack(words, stride);
    input := new bv8[|packed|](k requires 0 <= k < |packed| => packed[k]);
    size := new K.Uint32[|words|](j requires 0 <= j < |words| => Sizes(words)[j]);
  }

  /** `np.array([len(word) for word in wordlist]).astype(np.uint32)`. */
  function Sizes(words: seq<Word>): (sizes: seq<K.Uint32>)
    requires Short(words)
    ensures |sizes| == |words|
    ensures forall j :: 0 <= j < |words| ==> sizes[j] as int == Length(words[j]) <= |words[j]|
  {
    seq(|words|, j requires 0 <= j < |words| => Length(words[j]) as K.Uint32)
  }

  /** The digests the kernel as written leaves in the rows: row j is the
      digest of the bytes found at j * length. */
  function AsWrittenRows(words: seq<Word>): (rows: seq<seq<bv32>>)
    requires Short(words)
    ensures |rows| == |words| && EightWide(rows)
  {
    Digests(RowMessages(words))
  }

  /** The (n, 8) result array, row after row. */
  function Flatten(rows: seq<seq<bv32>>): seq<bv32> {
    if |rows| == 0 then [] else Flatten(rows[..|rows| - 1]) + rows[|rows| - 1]
  }

  predicate EightWide(rows: seq<seq<bv32>>) {
    forall j :: 0 <= j < |rows| ==> |rows[j]| == 8
  }

  /** Row j of the flattened array sits at j * 8. */
  lemma {:induction false} FlattenRow(rows: seq<seq<bv32>>, j: nat)
    requires EightWide(rows) && j < |rows|
    ensures |Flatten(rows)| == 8 * |rows|
    ensures Flatten(rows)[j * 8..j * 8 + 8] == rows[j]
  {
    var n := |rows|;
    FlattenLength(rows[..n - 1]);
    if j < n - 1 {
      FlattenRow(rows[..n - 1], j);
    }
  }

  /** The flat result array read back as n rows of eight words, as numpy's
      (n, 8) result array shows it. */
  function Unflatten(flat: seq<bv32>, n: nat): (rows: seq<seq<bv32>>)
    requires |flat| == 8 * n
    ensures |rows| == n && EightWide(rows)
  {
    seq(n, j requires 0 <= j < n => flat[j * 8..j * 8 + 8])
  }

  /** Reading the flat array back as rows gives the rows. */
  lemma UnflattenFlatten(rows: seq<seq<bv32>>)
    requires EightWide(rows)
    ensures |Flatten(rows)| == 8 * |rows| && Unflatten(Flatten(rows), |rows|) == rows
  {
    FlattenLength(rows);
    var back := Unflatten(Flatten(rows), |rows|);
    forall j | 0 <= j < |rows|
      ensures back[j] == rows[j]
    {
      FlattenRow(rows, j);
    }
  }

  lemma {:induction false} FlattenLength(rows: seq<seq<bv32>>)
    requires EightWide(rows)
    ensures |Flatten(rows)| == 8 * |rows|
  {
    if |rows| > 0 {
      FlattenLength(rows[..|rows| - 1]);
    }
  }

  /** Writing row gid after the first gid rows extends the flattened prefix. */
  lemma FlattenStep(before: seq<bv32>, after: seq<bv32>, rows: seq<seq<bv32>>, gid: nat)
    requires gid < |rows| && gid * 8 + 8 <= |before| == |after|
    requires before[..gid * 8] == Flatten(rows[..gid])
    requires after[..gid * 8] == before[..gid * 8] && after[gid * 8..gid * 8 + 8] == rows[gid]
    ensures after[..gid * 8 + 8] == Flatten(rows[..gid + 1])
  {
    assert rows[..gid + 1][..gid] == rows[..gid];
    assert after[..gid * 8 + 8] == after[..gid * 8] + after[gid * 8..gid * 8 + 8];
  }

  /** Writing the digest of msgs[gid] at row gid, and nothing before it,
      extends the flattened digests of the rows before it by one row. */
  lemma RowAppended(before: seq<bv32>, after: seq<bv32>, msgs: seq<Word>, gid: nat, m: Word)
    requires Short(msgs) && gid < |msgs| && m == msgs[gid] && gid * 8 + 8 <= |before| == |after|
    requires before[..gid * 8] == Flatten(Digests(msgs)[..gid])
    requires after[..gid * 8] == before[..gid * 8] && after[gid * 8..gid * 8 + 8] == F.Digest(L.Block(m))
    ensures after[..gid * 8 + 8] == Flatten(Digests(msgs)[..gid + 1])
  {
    DigestsAt(msgs, gid);
    FlattenStep(before, after, Digests(msgs), gid);
  }

  /** Work-item j of the kernel as written finds its bytes, at
      Offset(j, len) = j * len, in the packed array p. */
  lemma RowMessageIn(words: seq<Word>, p: seq<bv8>, stride: nat, j: nat, len: nat)
    requires j < |words| && stride == Stride(words) && p == Pack(words, stride) && len == Length(words[j])
    ensures ReadsAt(p, Offset(j, len), len, RowMessage(words, j))
  {
    OffsetBound(j, |words|, len, stride);
  }

  /** Work-item j finds word j, as numpy reads it back, at
      Offset(j, stride) = j * stride. */
  lemma SlotIn(words: seq<Word>, p: seq<bv8>, stride: nat, j: nat, len: nat)
    requires j < |words| && stride == Stride(words) && p == Pack(words, stride) && len == Length(words[j])
    ensures Offset(j, stride) + stride <= |p| && len <= stride
    ensures ReadsAt(p, Offset(j, stride), len, StripNul(words[j]))
  {
    SlotPrefix(words, stride, j, len);
    OffsetBound(j, |words|, stride, stride);
  }

  /** The len bytes at offset of p are msg. */
  predicate ReadsAt(p: seq<bv8>, offset: nat, len: nat, msg: Word) {
    offset + len <= |p| && p[offset..offset + len] == msg
  }

  /** The rows the kernel leaves when work-item j hashes msgs[j]. */
  function Digests(msgs: seq<Word>): (rows: seq<seq<bv32>>)
    requires Short(msgs)
    ensures |rows| == |msgs| && EightWide(rows)
  {
    if |msgs| == 0 then [] else Digests(msgs[..|msgs| - 1]) + [F.Digest(L.Block(msgs[|msgs| - 1]))]
  }

  /** Row j of Digests(msgs) is the digest of msgs[j]. */
  lemma {:induction false} DigestsAt(msgs: seq<Word>, j: nat)
    requires Short(msgs) && j < |msgs|
    ensures Digests(msgs)[j] == F.Digest(L.Block(msgs[j]))
  {
    var n := |msgs|;
    if j < n - 1 {
      var init := msgs[..n - 1];
      DigestsAt(init, j);
      assert Digests(msgs)[j] == Digests(init)[j] && init[j] == msgs[j];
    }
  }

  /** Work-item gid finds msgs[gid] at gid * size[gid] of the input buffer. */
  predicate Packed(p: seq<bv8>, sizes: seq<K.Uint32>, msgs: seq<Word>) {
    |sizes| == |msgs| &&
    forall gid :: 0 <= gid < |msgs| ==>
      sizes[gid] < 256 && ReadsAt(p, Offset(gid, sizes[gid] as int), sizes[gid] as int, msgs[gid])
  }

  /** Work-item gid of a packed buffer reads msgs[gid], in bounds, at
      gid * size[gid]. */
  lemma PackedRow(p: seq<bv8>, sizes: seq<K.Uint32>, msgs: seq<Word>, gid: nat)
    requires gid < |msgs| && Packed(p, sizes, msgs)
    ensures var len, start := sizes[gid] as int, Offset(gid, sizes[gid] as int);
      sizes[gid] < 256 && start == gid * len && start + len <= |p| && p[start..start + len] == msgs[gid]
  {
    var len := sizes[gid] as int;
    assert ReadsAt(p, Offset(gid, len), len, msgs[gid]);
    OffsetIsProduct(gid, len);
  }

  /** Work-item gid finds msgs[gid] at the start of slot gid of width stride. */
  predicate StridePacked(p: seq<bv8>, sizes: seq<K.Uint32>, stride: nat, msgs: seq<Word>) {
    |sizes| == |msgs| &&
    forall gid :: 0 <= gid < |msgs| ==>
      sizes[gid] < 256 && sizes[gid] as int <= stride && Offset(gid, stride) + stride <= |p| &&
      ReadsAt(p, Offset(gid, stride), sizes[gid] as int, msgs[gid])
  }

  /** Work-item gid of a buffer packed at a stride reads msgs[gid], in
      bounds, at gid * stride. */
  lemma StridePackedRow(p: seq<bv8>, sizes: seq<K.Uint32>, stride: nat, msgs: seq<Word>, gid: nat)
    requires gid < |msgs| && StridePacked(p, sizes, stride, msgs)
    ensures var len, start := sizes[gid] as int, Offset(gid, stride);
      sizes[gid] < 256 && len <= stride && start == gid * stride && start + stride <= |p| &&
      p[start..start + len] == msgs[gid]
  {
    assert ReadsAt(p, Offset(gid, stride), sizes[gid] as int, msgs[gid]);
    OffsetIsProduct(gid, stride);
  }

  /** Work-item gid of `process` as written appends the digest of msgs[gid]. */
  method Step(input: array<bv8>, size: array<K.Uint32>, ghost msgs: seq<Word>, results: array<bv32>, gid: nat)
    requires gid < size.Length == |msgs| && Short(msgs) && Packed(input[..], size[..], msgs)
    requires results.Length == size.Length * 8 && results[..gid * 8] == Flatten(Digests(msgs)[..gid])
    modifies results
    ensures results[..gid * 8 + 8] == Flatten(Digests(msgs)[..gid + 1])
  {
    ghost var before := results[..];
    var len := size[gid] as int;
    assert size[..][gid] == size[gid];
    PackedRow(input[..], size[..], msgs, gid);
    ghost var m := input[gid * len..gid * len + len];
    assert m == msgs[gid];
    OffsetBound(gid, size.Length, 8, 8);
    OffsetIsProduct(gid, 8);
    K.Process(input, size, results, gid);
    RowAppended(before, results[..], msgs, gid, m);
  }

  /** `self.prg.process(self.queue, wordlist.shape, ...)` and the read-back:
      work-items 0 to n - 1 of `process` as written, one after the other
      (each writes only its own row), where work-item gid finds msgs[gid]
      at gid * size[gid]. */
  method Enqueue(input: array<bv8>, size: array<K.Uint32>, ghost msgs: seq<Word>) returns (results: array<bv32>)
    requires size.Length == |msgs| && Short(msgs) && Packed(input[..], size[..], msgs)
    ensures fresh(results) && results[..] == Flatten(Digests(msgs))
  {
    results := new bv32[size.Length * 8];
    ghost var p := input[..];
    ghost var rows := Digests(msgs);
    var gid := 0;
    while gid < size.Length
      invariant 0 <= gid <= size.Length
      invariant input[..] == p
      invariant results[..gid * 8] == Flatten(rows[..gid])
      modifies results
    {
      Step(input, size, msgs, results, gid);
      gid := gid + 1;
    }
    assert rows[..gid] == rows;
  }

  /** Work-item gid of `process` reading at gid * stride appends the digest
      of msgs[gid]. */
  method StridedStep(input: array<bv8>, size: array<K.Uint32>, stride: nat, ghost msgs: seq<Word>, results: array<bv32>, gid: nat)
    requires gid < size.Length == |msgs| && Short(msgs) && StridePacked(input[..], size[..], stride, msgs)
    requires results.Length == size.Length * 8 && results[..gid * 8] == Flatten(Digests(msgs)[..gid])
    modifies results
    ensures results[..gid * 8 + 8] == Flatten(Digests(msgs)[..gid + 1])
  {
    ghost var before := results[..];
    var len := size[gid] as int;
    assert size[..][gid] == size[gid];
    StridePackedRow(input[..], size[..], stride, msgs, gid);
    ghost var m := input[gid * stride..gid * stride + len];
    assert m == msgs[gid];
    OffsetBound(gid, size.Length, 8, 8);
    OffsetIsProduct(gid, 8);
    K.StridedProcess(input, size, stride, results, gid);
    RowAppended(before, results[..], msgs, gid, m);
  }

  /** The same launch with `process` reading at gid * stride. */
  method StridedEnqueue(input: array<bv8>, size: array<K.Uint32>, stride: nat, ghost msgs: seq<Word>) returns (results: array<bv32>)
    requires size.Length == |msgs| && Short(msgs) && StridePacked(input[..], size[..], stride, msgs)
    ensures fresh(results) && results[..] == Flatten(Digests(msgs))
  {
    results := new bv32[size.Length * 8];
    ghost var p := input[..];
    ghost var rows := Digests(msgs);
    var gid := 0;
    while gid < size.Length
      invariant 0 <= gid <= size.Length
      invariant input[..] == p
      invariant results[..gid * 8] == Flatten(rows[..gid])
      modifies results
    {
      StridedStep(input, size, stride, msgs, results, gid);
      gid := gid + 1;
    }
    assert rows[..gid] == rows;
  }

  /** The bytes each work-item of the kernel as written hashes. */
  function RowMessages(words: seq<Word>): (msgs: seq<Word>)
    requires Short(words)
    ensures |msgs| == |words| && Short(msgs)
  {
    seq(|words|, j requires 0 <= j < |words| => RowMessage(words, j))
  }

  /** The buffers numpy builds put, as written, row j's bytes where
      work-item j reads. */
  lemma RowMessagesPacked(words: seq<Word>)
    requires Short(words)
    ensures Packed(Pack(words, Stride(words)), Sizes(words), RowMessages(words))
  {
    var p, sizes, msgs := Pack(words, Stride(words)), Sizes(words), RowMessages(words);
    forall gid | 0 <= gid < |msgs|
      ensures sizes[gid] < 256 && ReadsAt(p, Offset(gid, sizes[gid] as int), sizes[gid] as int, msgs[gid])
    {
      RowMessageIn(words, p, Stride(words), gid, sizes[gid] as int);
    }
  }

  /** `_generate_hashes` as written. */
  method GenerateHashes(words: seq<Word>) returns (results: array<bv32>)
    requires Short(words)
    ensures results[..] == Flatten(AsWrittenRows(words))
  {
    var input, size, stride := Buffers(words);
    ghost var msgs := RowMessages(words);
    RowMessagesPacked(words);
    results := Enqueue(input, size, msgs);
  }

  /** As written, a row hashes its own word when the word fills its slot or
      when it is the first. */
  lemma RowMessageWhenAligned(words: seq<Word>, j: nat)
    requires j < |words| && (j == 0 || Length(words[j]) == Stride(words))
    ensures RowMessage(words, j) == StripNul(words[j])
  {
    var stride, len := Stride(words), Length(words[j]);
    SlotPrefix(words, stride, j, len);
    assert Offset(j, len) == Offset(j, stride);
  }

  /** ["ab", "c"]: the host packs "abc\0" at stride 2, and work-item 1, of
      length 1, reads the byte at 1, "b", instead of "c". */
  lemma StrideMisreads()
    ensures var words := [[0x61, 0x62], [0x63]];
      RowMessage(words, 1) == [0x62] && StripNul(words[1]) == [0x63]
  {
    var words: seq<Word> := [[0x61, 0x62], [0x63]];
    assert MaxLength(words[..1]) == 2;
    assert Stride(words) == 2;
    assert Length(words[1]) == 1;
    assert Offset(1, 1) == 1;
    PackAt(words, 2, 0, 1);
  }

  // As intended: work-item gid reads at gid * stride.

  /** The digest of word j, as numpy hands it over. */
  function Row(words: seq<Word>, j: nat): (r: seq<bv32>)
    requires j < |words| && |words[j]| < 256
    ensures |r| == 8
  {
    F.Digest(L.Block(StripNul(words[j])))
  }


  /** The words as numpy hands them over. */
  function Messages(words: seq<Word>): (msgs: seq<Word>)
    requires Short(words)
    ensures |msgs| == |words| && Short(msgs)
  {
    seq(|words|, j requires 0 <= j < |words| => StripNul(words[j]))
  }

  /** The rows of `_generate_hashes` with every work-item reading its own slot. */
  function Rows(words: seq<Word>): (rows: seq<seq<bv32>>)
    requires Short(words)
    ensures |rows| == |words| && EightWide(rows)
  {
    Digests(Messages(words))
  }

  /** Row j of Rows(words) is the digest of word j. */
  lemma RowsAt(words: seq<Word>, j: nat)
    requires Short(words) && j < |words|
    ensures Rows(words)[j] == Row(words, j)
  {
    DigestsAt(Messages(words), j);
  }

  /** The buffers numpy builds put word j at the start of slot j. */
  lemma MessagesPacked(words: seq<Word>)
    requires Short(words)
    ensures StridePacked(Pack(words, Stride(words)), Sizes(words), Stride(words), Messages(words))
  {
    var stride, p, sizes, msgs := Stride(words), Pack(words, Stride(words)), Sizes(words), Messages(words);
    forall gid | 0 <= gid < |msgs|
      ensures sizes[gid] < 256 && sizes[gid] as int <= stride && Offset(gid, stride) + stride <= |p|
      ensures ReadsAt(p, Offset(gid, stride), sizes[gid] as int, msgs[gid])
    {
      SlotIn(words, p, stride, gid, sizes[gid] as int);
    }
  }

  /** `_generate_hashes` with every work-item reading its own slot: row j is
      the digest of word j. */
  method StridedHashes(words: seq<Word>) returns (results: array<bv32>)
    requires Short(words)
    ensures results[..] == Flatten(Rows(words))
  {
    var input, size, stride := Buffers(words);
    ghost var msgs := Messages(words);
    MessagesPacked(words);
    results := StridedEnqueue(input, size, stride, msgs);
  }

  /** For a word of fewer than 56 bytes, all below 0x80, the row is its
      SHA-256 hash. */
  lemma RowIsSha256(words: seq<Word>, j: nat)
    requires j < |words| && |words[j]| < 56 && L.IsAscii(words[j])
    ensures Row(words, j) == F.Hash(StripNul(words[j]))
  {
    var w := StripNul(words[j]);
    assert L.IsAscii(w) by {
      forall i | 0 <= i < |w|
        ensures w[i] < 0x80
      {
        assert w[i] == words[j][i];
      }
    }
    K.Hashes(w);
  }
}
