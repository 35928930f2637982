/**
  `HashCracker` (cracker/hashes.py lines 100-169): the target digest is
  decoded once into words; `start` reads the word list in chunks of 5000
  items, hashes every chunk with the kernel and stops at the first chunk
  holding a word whose digest is the target. `compute` first asks numpy
  whether the target occurs in the digest array, then looks the target's
  hex text up among the re-encoded rows. `_found` sets `stopped`, which
  nothing resets and which `start` checks before each further chunk.

  The hashing is the corrected batch, in which work-item j hashes word j
  (Batch.StridedHashes), and not the kernel as written, which reads word j
  at j * length. Verdict is stated for any digest rows, so that
  AlignedWordIsFound can speak of the rows as written (Batch.AsWrittenRows).
  The exceptions that end `start` are outcomes. Console output is left out.
 */
module Driver {
  import opened Wrappers
  import HexDigest
  import F = Fips180
  import L = Loading
  import Batch
  import Chunker
  import Enumerator

  type Word = seq<bv8>

  /** The exceptions `start` can end with. */
  datatype Error =
    | EmptyChunk     // `wordlist[-1]` on the empty final chunk (line 154)
    | NoMatchingRow  // `hashes.index` finds no row (line 159)
    | NoRstrip       // the generator meets a short tuple (line 142)

  /** How `start` ends: normally or by an exception. */
  datatype Outcome = Finished | Raised(error: Error)

  /** `items_in_chunk` as `start` passes it (line 163). */
  const ItemsInChunk: nat := 5000

  // numpy's `passhash in hashes` (line 156).

  /** `(hashes == passhash).any()`: the target broadcast against every row.
      Eight target words compare column by column, one word compares with
      every element; any other shape does not broadcast and the test is
      false. A row equal to an eight-word target passes. */
  predicate Contains(rows: seq<seq<bv32>>, target: seq<bv32>)
    requires Batch.EightWide(rows)
    ensures Contains(rows, target) ==> |target| == 8 || |target| == 1
    ensures |target| == 8 && (exists j :: 0 <= j < |rows| && rows[j] == target) ==> Contains(rows, target)
  {
    if |target| == 8 then
      assert forall j :: 0 <= j < |rows| && rows[j] == target ==> rows[j][0] == target[0];
      exists j, k :: 0 <= j < |rows| && 0 <= k < 8 && rows[j][k] == target[k]
    else if |target| == 1 then exists j, k :: 0 <= j < |rows| && 0 <= k < 8 && rows[j][k] == target[0]
    else false
  }

  /** The test is weaker than row equality: one equal column suffices. */
  lemma ContainsIsColumnWise()
    ensures var rows: seq<seq<bv32>>, target: seq<bv32> := [[1, 2, 3, 4, 5, 6, 7, 8]], [1, 0, 0, 0, 0, 0, 0, 0];
      Contains(rows, target) && rows[0] != target
  {
    var rows: seq<seq<bv32>> := [[1, 2, 3, 4, 5, 6, 7, 8]];
    var target: seq<bv32> := [1, 0, 0, 0, 0, 0, 0, 0];
    assert rows[0][0] == target[0];
  }

  // The lookup of line 159.

  /** `list.index`: the first position holding s, or none. */
  function FirstIndex(hexes: seq<string>, s: string): (r: Option<nat>)
    ensures r.Some? ==> r.value < |hexes| && hexes[r.value] == s
    ensures r.Some? ==> forall i :: 0 <= i < r.value ==> hexes[i] != s
    ensures r.None? ==> forall i :: 0 <= i < |hexes| ==> hexes[i] != s
  {
    if |hexes| == 0 then None
    else if hexes[0] == s then Some(0)
    else match FirstIndex(hexes[1..], s)
      case None => None
      case Some(i) => Some(i + 1)
  }

  /** The rows re-encoded as lowercase hex (lines 157-158). */
  function Hexes(rows: seq<seq<bv32>>): (hexes: seq<string>)
    ensures |hexes| == |rows| && forall j :: 0 <= j < |rows| ==> hexes[j] == HexDigest.Encode(rows[j])
  {
    seq(|rows|, j requires 0 <= j < |rows| => HexDigest.Encode(rows[j]))
  }

  /** What `compute` does with a chunk whose digest rows are rows, given the
      decoded target and its text: the empty chunk raises, a failed
      membership test finds nothing, otherwise the first row whose hex text
      is the target names the word, and no such row raises. A reported word
      is one whose row is the target's text; nothing is reported only when
      no row is the target. */
  function Verdict(rows: seq<seq<bv32>>, passhash: seq<bv32>, hashdigest: string, chunk: seq<Word>): (r: Result<Option<Word>, Error>)
    requires |rows| == |chunk| && Batch.EightWide(rows)
    ensures r == Failure(EmptyChunk) <==> |chunk| == 0
    ensures r.Success? && r.value.Some? ==>
      exists j :: 0 <= j < |chunk| && r.value.value == chunk[j] && HexDigest.Encode(rows[j]) == hashdigest
    ensures r.Success? && r.value.None? ==> forall j :: 0 <= j < |rows| ==> rows[j] != passhash
    ensures r == Failure(NoMatchingRow) ==> forall j :: 0 <= j < |rows| ==> HexDigest.Encode(rows[j]) != hashdigest
  {
    if |chunk| == 0 then Failure(EmptyChunk)
    else if !Contains(rows, passhash) then Success(None)
    else match FirstIndex(Hexes(rows), hashdigest)
      case None => Failure(NoMatchingRow)
      case Some(j) => Success(Some(chunk[j]))
  }

  /** Whether a verdict reports a word. */
  predicate Reports(v: Result<Option<Word>, Error>) {
    v.Success? && v.value.Some?
  }

  /** A reported word is that of the first row whose digest, in hex, is the
      target. */
  lemma FoundIsFirstMatch(rows: seq<seq<bv32>>, passhash: seq<bv32>, hashdigest: string, chunk: seq<Word>)
    requires |rows| == |chunk| && Batch.EightWide(rows)
    requires Reports(Verdict(rows, passhash, hashdigest, chunk))
    ensures exists j :: (0 <= j < |chunk| && chunk[j] == Verdict(rows, passhash, hashdigest, chunk).value.value &&
      HexDigest.Encode(rows[j]) == hashdigest &&
      forall i :: 0 <= i < j ==> HexDigest.Encode(rows[i]) != hashdigest)
  {
    var j := FirstIndex(Hexes(rows), hashdigest).value;
    forall i | 0 <= i < j
      ensures HexDigest.Encode(rows[i]) != hashdigest
    {
      assert Hexes(rows)[i] != hashdigest;
    }
  }

  /** When the target is the hex text of some row and decodes to it,
      `compute` reports a word. */
  lemma MatchIsFound(rows: seq<seq<bv32>>, passhash: seq<bv32>, hashdigest: string, chunk: seq<Word>, j: nat)
    requires |rows| == |chunk| && Batch.EightWide(rows) && j < |chunk|
    requires HexDigest.Decode(hashdigest) == Success(passhash)
    requires HexDigest.Encode(rows[j]) == hashdigest
    ensures Reports(Verdict(rows, passhash, hashdigest, chunk))
  {
    HexDigest.DecodeEncode(rows[j]);
    assert rows[j] == passhash;
    assert Hexes(rows)[j] == hashdigest;
  }

  /** A target written with an uppercase hex digit is never reported: the
      re-encoded rows are lowercase. */
  lemma UppercaseNeverFound(rows: seq<seq<bv32>>, passhash: seq<bv32>, hashdigest: string, chunk: seq<Word>)
    requires |rows| == |chunk| && Batch.EightWide(rows)
    requires exists i :: 0 <= i < |hashdigest| && 'A' <= hashdigest[i] <= 'F'
    ensures !Reports(Verdict(rows, passhash, hashdigest, chunk))
  {
    if |chunk| > 0 {
      var r := FirstIndex(Hexes(rows), hashdigest);
      if r.Some? {
        HexDigest.UppercaseNeverEncoded(hashdigest, rows[r.value]);
        assert false;
      }
    }
  }

  /** With every work-item reading its own slot (corrected stride, see
      Batch.StridedHashes): a word of fewer than 56 ASCII bytes, not ending in
      NUL, whose SHA-256 hash in lowercase hex is the target, is found in any
      chunk holding it. */
  lemma HashOfWordIsFound(passhash: seq<bv32>, hashdigest: string, chunk: seq<Word>, j: nat)
    requires Batch.Short(chunk) && j < |chunk|
    requires |chunk[j]| < 56 && L.IsAscii(chunk[j]) && (|chunk[j]| == 0 || chunk[j][|chunk[j]| - 1] != 0)
    requires hashdigest == HexDigest.Encode(F.Hash(chunk[j]))
    requires HexDigest.Decode(hashdigest) == Success(passhash)
    ensures Reports(Verdict(Batch.Rows(chunk), passhash, hashdigest, chunk))
  {
    assert Batch.StripNul(chunk[j]) == chunk[j];
    Batch.RowIsSha256(chunk, j);
    Batch.RowsAt(chunk, j);
    MatchIsFound(Batch.Rows(chunk), passhash, hashdigest, chunk, j);
  }

  /** With the kernel as written (work-item j reading at j * length), the
      same word is found when it is the first of its chunk or fills its
      slot; the other rows hash misread bytes (Batch.StrideMisreads). */
  lemma AlignedWordIsFound(passhash: seq<bv32>, hashdigest: string, chunk: seq<Word>, j: nat)
    requires Batch.Short(chunk) && j < |chunk|
    requires |chunk[j]| < 56 && L.IsAscii(chunk[j]) && (|chunk[j]| == 0 || chunk[j][|chunk[j]| - 1] != 0)
    requires j == 0 || |chunk[j]| == Batch.Stride(chunk)
    requires hashdigest == HexDigest.Encode(F.Hash(chunk[j]))
    requires HexDigest.Decode(hashdigest) == Success(passhash)
    ensures Reports(Verdict(Batch.AsWrittenRows(chunk), passhash, hashdigest, chunk))
  {
    assert Batch.StripNul(chunk[j]) == chunk[j];
    Batch.RowMessageWhenAligned(chunk, j);
    Batch.DigestsAt(Batch.RowMessages(chunk), j);
    Batch.RowIsSha256(chunk, j);
    MatchIsFound(Batch.AsWrittenRows(chunk), passhash, hashdigest, chunk, j);
  }

  // The loop of `start` (lines 162-168).

  /** How a run of `start` ends: its outcome, the final `stopped`, and the
      number of chunks handed to `compute`. */
  datatype Report = Report(outcome: Outcome, stopped: bool, computed: nat)

  predicate ShortChunks(chunks: seq<Chunker.Chunk>) {
    forall i :: 0 <= i < |chunks| ==> Batch.Short(chunks[i])
  }

  /** What `compute` returns on each chunk. */
  function Verdicts(passhash: seq<bv32>, hashdigest: string, chunks: seq<Chunker.Chunk>): (vs: seq<Result<Option<Word>, Error>>)
    requires ShortChunks(chunks)
    ensures |vs| == |chunks|
  {
    seq(|chunks|, k requires 0 <= k < |chunks| => Verdict(Batch.Rows(chunks[k]), passhash, hashdigest, chunks[k]))
  }

  /** `start` from chunk k on, given what `compute` returns on each chunk the
      generator yields before it is exhausted or raises (failed): the `for`
      asks for the next chunk before `stopped` is looked at. */
  function Scan(verdicts: seq<Result<Option<Word>, Error>>, failed: bool, k: nat, stopped: bool): (r: Report)
    requires k <= |verdicts|
    ensures k <= r.computed <= |verdicts|
    ensures stopped ==> r.stopped && r.computed == k
    decreases |verdicts| - k
  {
    if k == |verdicts| then Report(if failed then Raised(NoRstrip) else Finished, stopped, k)
    else if stopped then Report(Finished, true, k)
    else match verdicts[k]
      case Failure(e) => Report(Raised(e), false, k + 1)
      case Success(found) => Scan(verdicts, failed, k + 1, found.Some?)
  }

  /** Starting unstopped, a run ends stopped exactly when some chunk finds
      the word; that chunk is the last one computed and every chunk before
      it found nothing. */
  lemma {:induction false} StopsAtFind(verdicts: seq<Result<Option<Word>, Error>>, failed: bool, k: nat)
    requires k <= |verdicts|
    ensures var r := Scan(verdicts, failed, k, false);
      && (forall i :: k <= i < r.computed - 1 ==> verdicts[i] == Success(None))
      && (r.stopped <==> (r.computed > k && verdicts[r.computed - 1].Success? && verdicts[r.computed - 1].value.Some?))
    decreases |verdicts| - k
  {
    if k < |verdicts| && verdicts[k].Success? && verdicts[k].value.None? {
      StopsAtFind(verdicts, failed, k + 1);
    }
  }

  /** Starting unstopped, a run that ends normally without finding has
      computed every chunk, and the generator did not raise. */
  lemma {:induction false} ExhaustsUnlessFound(verdicts: seq<Result<Option<Word>, Error>>, failed: bool, k: nat)
    requires k <= |verdicts|
    ensures var r := Scan(verdicts, failed, k, false);
      r.outcome == Finished && !r.stopped ==> r.computed == |verdicts| && !failed
    decreases |verdicts| - k
  {
    if k < |verdicts| && verdicts[k].Success? && verdicts[k].value.None? {
      ExhaustsUnlessFound(verdicts, failed, k + 1);
    }
  }

  /** The chunks `_read_chunks(wordlist, 5000)` yields hold short words. */
  function Chunks(source: seq<Chunker.Item>): (cs: seq<Chunker.Chunk>)
    ensures ShortChunks(cs)
    ensures forall i :: 0 <= i < |cs| ==> forall j :: 0 <= j < |cs[i]| ==> |cs[i][j]| < Chunker.Limit
  {
    Chunker.ChunksBounded(source, ItemsInChunk);
    Chunker.Chunks(source, ItemsInChunk)
  }

  /** Whether `_read_chunks(wordlist, 5000)` ends by raising. */
  function Raising(source: seq<Chunker.Item>): bool {
    Chunker.Run(source, |source|, ItemsInChunk).failed
  }

  /** `_generate_hashes` (lines 119-136) with the corrected stride (see
      Batch.StridedHashes): the (n, 8) array of the batch, row j the digest
      of word j. */
  method GenerateHashes(wordlist: seq<Word>) returns (hashes: seq<seq<bv32>>)
    requires Batch.Short(wordlist)
    ensures hashes == Batch.Rows(wordlist)
  {
    var results := Batch.StridedHashes(wordlist);
    Batch.UnflattenFlatten(Batch.Rows(wordlist));
    hashes := Batch.Unflatten(results[..], |wordlist|);
  }

  class HashCracker {
    /** The target as given, in hex. */
    const hashdigest: string
    /** The target decoded into big-endian words (lines 104-105). */
    const passhash: seq<bv32>
    const wordlist: seq<Chunker.Item>
    var stopped: bool

    /** `__init__` for a target that decodes (lines 102-110); `wordlist or
        []` leaves a list unchanged. */
    constructor (passhash: string, wordlist: seq<Chunker.Item>)
      requires HexDigest.Decode(passhash).Success?
      ensures this.hashdigest == passhash && this.passhash == HexDigest.Decode(passhash).value
      ensures this.wordlist == wordlist && !stopped
    {
      this.hashdigest := passhash;
      this.passhash := HexDigest.Decode(passhash).value;
      this.wordlist := wordlist;
      stopped := false;
    }

    /** `_found` (lines 148-150). */
    method Found(word: Word, hash: string)
      modifies this
      ensures stopped
    {
      stopped := true;
    }

    /** `compute` (lines 152-160) on one chunk. */
    method Compute(wordlist: seq<Word>, index: nat) returns (r: Result<Option<Word>, Error>)
      requires Batch.Short(wordlist)
      modifies this
      ensures r == Verdict(Batch.Rows(wordlist), passhash, hashdigest, wordlist)
      ensures stopped == (old(stopped) || (r.Success? && r.value.Some?))
    {
      if |wordlist| == 0 {
        return Failure(EmptyChunk);
      }
      var hashes := GenerateHashes(wordlist);
      if !Contains(hashes, passhash) {
        return Success(None);
      }
      var index := FirstIndex(Hexes(hashes), hashdigest);
      if index.None? {
        return Failure(NoMatchingRow);
      }
      Found(wordlist[index.value], hashdigest);
      r := Success(Some(wordlist[index.value]));
    }

    /** One pass of `start`'s loop that reaches `compute`: chunk k's verdict. */
    method Dispatch(chunks: seq<Chunker.Chunk>, k: nat, ghost verdicts: seq<Result<Option<Word>, Error>>) returns (r: Result<Option<Word>, Error>)
      requires k < |chunks| && ShortChunks(chunks) && verdicts == Verdicts(passhash, hashdigest, chunks)
      modifies this
      ensures r == verdicts[k]
      ensures stopped == (old(stopped) || (r.Success? && r.value.Some?))
    {
      r := Compute(chunks[k], k);
    }

    /** `start` (lines 162-168): the outcome, the final `stopped` and the
        chunks computed are those of Scan over the chunks of the word list. */
    method Start() returns (outcome: Outcome, ghost computed: nat)
      modifies this
      ensures Report(outcome, stopped, computed) == Scan(Verdicts(passhash, hashdigest, Chunks(wordlist)), Raising(wordlist), 0, old(stopped))
    {
      var chunks, failed := Chunker.ReadChunks(wordlist, ItemsInChunk);
      assert chunks == Chunks(wordlist);
      ghost var verdicts := Verdicts(passhash, hashdigest, chunks);
      var k := 0;
      while true
        invariant k <= |chunks| && ShortChunks(chunks)
        invariant Scan(verdicts, failed, k, stopped) == Scan(verdicts, failed, 0, old(stopped))
        decreases |chunks| - k
      {
        if k == |chunks| {
          outcome := if failed then Raised(NoRstrip) else Finished;
          computed := k;
          return;
        }
        if stopped {
          outcome := Finished;
          computed := k;
          return;
        }
        var r := Dispatch(chunks, k, verdicts);
        k := k + 1;
        if r.Failure? {
          outcome := Raised(r.error);
          computed := k;
          return;
        }
      }
    }
  }

  /** The decode of `__init__` either fails, and so does the constructor, or
      yields a cracker for the target. */
  method Create(passhash: string, wordlist: seq<Chunker.Item>) returns (r: Result<HashCracker, HexDigest.DecodeError>)
    ensures r.Success? <==> HexDigest.Decode(passhash).Success?
    ensures r.Failure? ==> r.error == HexDigest.Decode(passhash).error
    ensures r.Success? ==> fresh(r.value) && !r.value.stopped && r.value.wordlist == wordlist
    ensures r.Success? ==> r.value.hashdigest == passhash && r.value.passhash == HexDigest.Decode(passhash).value
  {
    var d := HexDigest.Decode(passhash);
    if d.Failure? {
      return Failure(d.error);
    }
    var cracker := new HashCracker(passhash, wordlist);
    r := Success(cracker);
  }

  // `--permutate` (cracker/cli.py line 28): the enumerator's tuples as items.

  /** The first k sizes of `pass_generator()` as word-list items. */
  function Candidates(k: nat): (items: seq<Chunker.Item>)
    ensures |items| == |Enumerator.Enumeration(k)|
    ensures forall i :: 0 <= i < |items| ==> items[i].Combination?
  {
    var e := Enumerator.Enumeration(k);
    Enumerator.EnumerationShape(k);
    seq(|e|, i requires 0 <= i < |e| => Chunker.Combination(Enumerator.Symbols(e[i])))
  }

  /** With the enumerator as word list, the generator raises on its first
      item, the empty tuple, so `start` raises before any chunk is hashed. */
  lemma PermutateNeverHashes(k: nat, passhash: seq<bv32>, hashdigest: string, stopped: bool)
    requires k > 0
    ensures Chunks(Candidates(k)) == [] && Raising(Candidates(k))
    ensures Scan(Verdicts(passhash, hashdigest, Chunks(Candidates(k))), Raising(Candidates(k)), 0, stopped) == Report(Raised(NoRstrip), stopped, 0)
  {
    var source := Candidates(k);
    Enumerator.FirstIsEmpty(k);
    assert source[0] == Chunker.Combination([]);
    assert Chunker.Raises(source[0]);
    Chunker.FailedStays(source, 1, |source|, ItemsInChunk);
  }
}
