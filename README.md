# SHA-256 brute-force cracker, modelled in Dafny

The cracker takes a SHA-256 digest as 64 hex characters and a list of candidate
words. It hashes the words on an OpenCL device, 5000 at a time, and reports the
first word whose digest is the target. The candidates come from a word-list
file, or from the enumerator behind `--permutate`. That enumerator lists every
multiset of letters and digits, smallest size first.

This project models the core of the cracker and proves its properties:

- **fips.dfy** (`Fips180`): single-block SHA-256 written from FIPS 180-4. It
  covers the functions of section 4.1.2, the constants of section 4.2.2, the
  padding of section 5.1.1, the parsing of section 5.2.1, the initial hash
  value of section 5.3.3 and the hash computation of section 6.2.2. It is the
  reference the kernel is proved against.
- **macros.dfy** (`Macros`): the kernel's `rot`, `Ch` and `Ma` macros over
  `bv32`, including OpenCL's `rotate` and `bitselect`. It also holds the
  rotations and sigma functions as the kernel spells them.
- **block.dfy** (`Loading`) and **padding.dfy** (`Padding`): the message
  block that the kernel's first loop builds from `length` signed bytes. The
  block agrees with FIPS padding and parsing when every byte is below 0x80.
  `Padding` also shows how a byte of 0x80 or more pollutes the word.
- **kernel.dfy** (`Kernel`): the `process` work-item as imperative Dafny over
  arrays. `LoadBlock`, `ExpandSchedule`, `Compress` and `StoreResult` are each
  proved against the FIPS functions. `Process` is the kernel as written: it
  reads at `gid * length`. `StridedProcess` is the same kernel reading at
  `gid * stride`.
- **hexdigest.dfy** (`HexDigest`): the target's decode
  (`str.decode('hex')`, numpy `fromstring` as little-endian `uint32`, then
  `byteswap`) and the re-encoding of result rows, with both round trips.
- **chunker.dfy** (`Chunker`): `_read_chunks` as a loop method, proved against
  a step function of the generator's state.
- **batch.dfy** (`Batch`): `_generate_hashes` with the OpenCL calls abstracted.
  - numpy's packing of the words into one fixed-width NUL-padded array. Its
    stride is the longest word.
  - numpy's lengths, which drop trailing NUL bytes.
  - One kernel launch per index, filling the (n, 8) result array row by row.
- **driver.dfy** (`Driver`): class `HashCracker`, with its `stopped` flag,
  `compute`, `_found` and `start`. Its exceptions become outcomes. It also
  links the enumerator to the chunker.
- **enumerator.dfy** (`Enumerator`): `pass_generator`. It is the size-`n`
  blocks of non-decreasing index tuples over the 62-symbol alphabet, in
  lexicographic order, concatenated by size.
- **wrappers.dfy** (`Wrappers`): `Option` and `Result`.

What the code does that a reader might not expect:

- The enumerator of cracker/cli.py:11-16 yields
  `combinations_with_replacement`: multisets given as tuples of symbols,
  starting with the empty tuple, not permutations and not strings.
- The digest decode of cracker/hashes.py:104-105 accepts upper- and
  lowercase hex of any length that is a multiple of 8, not only 64
  characters.
- The kernel reads word `gid` at `gid * length` while numpy packs it at
  `gid * stride` (see Findings). The batch and the driver are modelled both
  ways: `Batch.GenerateHashes` and `Driver.AlignedWordIsFound` as written,
  and the rest of the driver with the corrected stride.

## Model

| member | source | states |
|---|---|---|
| Macros.Rot2 | cracker/hashes.py:11 | `rot(x, 2)`, a left rotation by 30, is the right rotation by 2; likewise Rot6, Rot7, Rot11, Rot13, Rot17, Rot18, Rot19, Rot22 and Rot25 for their amounts |
| Macros.ChIsCh | cracker/hashes.py:12 | `Ch` through `bitselect(z, y, x)` equals FIPS 180-4 Ch for all words |
| Macros.MaIsMaj | cracker/hashes.py:13 | `Ma` as `Ch(z ^ x, y, x)` equals FIPS 180-4 Maj for all words |
| Macros.ScheduleS0IsSigma0 | cracker/hashes.py:54 | the kernel's `s0` is σ0 of section 4.1.2 |
| Macros.ScheduleS1IsSigma1 | cracker/hashes.py:55 | the kernel's `s1` is σ1 |
| Macros.RoundS0IsSigma0 | cracker/hashes.py:70 | the kernel's `S0` is Σ0 |
| Macros.RoundS1IsSigma1 | cracker/hashes.py:71 | the kernel's `S1` is Σ1 |
| Kernel.TablesAgree | cracker/hashes.py:15-31 | the kernel's `K` and `H` tables are the constants of sections 4.2.2 and 5.3.3 |
| Kernel.LoadBlock | cracker/hashes.py:44-50 | after the loading loop and the two padding stores, words 0-15 of `w` are the block `Loading.Block` of the `length` bytes at the work-item's offset |
| Loading.LoadStepKeeps | cracker/hashes.py:45-47 | one pass of the loading loop zeroes `w[i]` and ORs byte i, sign-extended and placed big-endian, into `w[i/4]`; the words loaded so far stay correct |
| Loading.FinishIsBlock | cracker/hashes.py:49-50 | the 0x80 marker after the last byte and `length << 3` in `w[15]` complete the block |
| Loading.Block | cracker/hashes.py:44-50 | the sixteen words the loading loop and the two padding stores leave in `w`; LoadBlock, FinishIsBlock and BlockIsPadding state what they hold |
| Padding.BlockIsPadding | cracker/hashes.py:44-50 | for fewer than 56 bytes, all below 0x80, the block is the parsed FIPS padded message (sections 5.1.1 and 5.2.1) |
| Padding.BytePlacement | cracker/hashes.py:44-50 | byte i of the block is message byte i for i < length, 0x80 at i = length and 0 up to byte 55; word 14 is 0 and word 15 is the bit length |
| Padding.SignExtensionPollutes | cracker/hashes.py:47 | for the bytes 0x61 0x80, word 0 of the block is 0xff808000 where FIPS parsing gives 0x61808000 |
| Kernel.ExpandSchedule | cracker/hashes.py:53-57 | the whole of `w` becomes the FIPS message schedule of the block in words 0-15, which are left unchanged |
| Kernel.ScheduleWord | cracker/hashes.py:54-56 | word i is `w[i-16] + s0 + w[i-7] + s1` mod 2^32, extending the schedule prefix by one |
| Kernel.ScheduleWordAgrees | cracker/hashes.py:54-56 | the kernel's masked sum over `rot`-based s0 and s1 is the recurrence of section 6.2.2, step 1 |
| Kernel.Compress | cracker/hashes.py:59-86 | starting from `H`, the 64 rounds yield the working variables of FIPS `Rounds(w, 64)` |
| Kernel.RoundAgrees | cracker/hashes.py:69-86 | one round of the kernel (temp1, temp2, shifts, `e = d + temp1`, `a = temp1 + temp2` mod 2^32) is one FIPS round |
| Kernel.Temp1Agrees | cracker/hashes.py:75 | `temp1` is T1 of section 6.2.2 |
| Kernel.Temp2Agrees | cracker/hashes.py:76 | `temp2` is T2 |
| Kernel.StoreResult | cracker/hashes.py:88-95 | slots `base..base+8` of `result` become `H[j] + var_j`; every other slot is unchanged |
| Kernel.FeedWordsAgree | cracker/hashes.py:88-95 | the eight stored sums are the FIPS intermediate hash after one block |
| Kernel.HashRow | cracker/hashes.py:38-96 | the 8 words at `base` are the digest of the block of `length` bytes at `offset`; nothing else changes |
| Kernel.Process | cracker/hashes.py:33-96 | as written: row `gid` is the digest of the `size[gid]` bytes at `gid * size[gid]`; other rows unchanged |
| Kernel.StridedProcess | cracker/hashes.py:33-96 | reading at `gid * stride`: row `gid` is the digest of the `size[gid]` bytes at the start of slot `gid`; other rows unchanged |
| Kernel.Hashes | cracker/hashes.py:44-95 | for fewer than 56 bytes, all below 0x80, a work-item's row is the SHA-256 hash of its bytes |
| HexDigest.Decode | cracker/hashes.py:104-105 | decoding succeeds exactly for hex text whose length is a multiple of 8, giving one word per 8 characters |
| HexDigest.Unhex | cracker/hashes.py:104 | `decode('hex')` succeeds exactly on an even number of hex digits; an odd length is its own error |
| HexDigest.FromString | cracker/hashes.py:104 | `fromstring` as `uint32` succeeds exactly on a multiple of 4 bytes |
| HexDigest.Encode | cracker/hashes.py:157-158 | a row of n words encodes to 8n lowercase hex characters |
| HexDigest.Hex | cracker/hashes.py:158 | `encode('hex')` gives two lowercase hex digits per byte |
| HexDigest.DecodeEncode | cracker/hashes.py:157-158 | decoding the encoding of any row gives the row back |
| HexDigest.EncodeDecode | cracker/hashes.py:104-105 | lowercase hex of a length that is a multiple of 8 decodes, and re-encodes to itself |
| HexDigest.DecodeIsBigEndian | cracker/hashes.py:104-105 | decoded word k is the big-endian reading of bytes 4k..4k+3 of the decoded hex |
| HexDigest.SwapIsBigEndian | cracker/hashes.py:105 | `byteswap` of a little-endian `uint32` is the big-endian reading of the same four bytes |
| HexDigest.ByteSwapTwice | cracker/hashes.py:105 | byte-swapping twice is the identity |
| HexDigest.WordsOfBytes | cracker/hashes.py:104 | reading words back from their `tobytes` gives the words |
| HexDigest.BytesOfWords | cracker/hashes.py:104 | writing the words of a byte string gives the bytes |
| HexDigest.PairsOfHex | cracker/hashes.py:158 | `encode('hex')` text is all hex digits and decodes to the bytes |
| HexDigest.HexOfPairs | cracker/hashes.py:104 | lowercase hex decodes to bytes that re-encode to the text |
| HexDigest.UppercaseNeverEncoded | cracker/hashes.py:157-159 | no row encodes to a text that holds an uppercase hex digit |
| Chunker.RStrip | cracker/hashes.py:142 | `rstrip('\n\r')` is the longest prefix not ending in a line end, and only line ends are removed |
| Chunker.Step | cracker/hashes.py:140-145 | one pass of the loop: once raised the state is final; it raises exactly on a short tuple; the yielded chunks are only ever extended, by at most one chunk |
| Chunker.Run | cracker/hashes.py:140-145 | the state after n items of the source has yielded at most n chunks |
| Chunker.Chunks | cracker/hashes.py:138-146 | the generator yields at most one chunk more than it reads items, and at least one chunk (possibly empty) when it does not raise, even for an empty word list |
| Chunker.ReadChunks | cracker/hashes.py:138-146 | the loop yields the chunks of the generator's step function, and reports whether it raised |
| Chunker.ChunksKeep | cracker/hashes.py:138-146 | without a short tuple, the concatenated chunks are the source's lines shorter than 56, stripped, in order; the generator raises exactly when a short tuple is present |
| Chunker.ChunksBounded | cracker/hashes.py:138-146 | every chunk holds at most `items_in_chunk` words, all shorter than 56; every chunk but the last is non-empty, and so is every chunk when the generator raised |
| Chunker.RunKeeps | cracker/hashes.py:140-145 | after any prefix of the source, the yielded chunks plus the pending items are the kept words of that prefix |
| Chunker.RunBounds | cracker/hashes.py:143-145 | yielded chunks hold 1 to `items_in_chunk` words; pending items are fewer, and no more than the source items read since the last multiple |
| Chunker.RunFails | cracker/hashes.py:142 | the generator has raised after n items exactly when one of them is a tuple shorter than 56 |
| Chunker.FailedStays | cracker/hashes.py:140-142 | once the generator has raised, later items change nothing |
| Chunker.RunShort | cracker/hashes.py:141 | every kept word is shorter than 56 |
| Batch.StripNul | cracker/hashes.py:122 | a numpy element is its word less its trailing NUL bytes: a prefix, not ending in NUL, with only NULs removed |
| Batch.MaxLength | cracker/hashes.py:122 | the longest word's length bounds every word and is attained, or 0 for no words |
| Batch.Stride | cracker/hashes.py:122 | the array's item size is at least 1 and at least every word's length, and it is 1 or the length of some word: the longest word's length, or 1 when every word is empty |
| Batch.Pack | cracker/hashes.py:122 | `np.array(wordlist)` lays the words out one slot of `stride` bytes each, `Offset(n, stride)` = n·stride bytes in all (`OffsetIsProduct`); slot contents are stated by PackAt and SlotPrefix |
| Batch.Sizes | cracker/hashes.py:123 | entry j is the length of numpy's element j, no longer than word j |
| Batch.PackAt | cracker/hashes.py:122 | byte t of slot i of the packed array is word i's byte t, or NUL past its end |
| Batch.SlotPrefix | cracker/hashes.py:122 | slot i starts with word i's first `len` bytes, for `len` up to its length |
| Batch.Buffers | cracker/hashes.py:122-129 | the input buffer is the packed array with the word stride, and the size buffer holds numpy's lengths |
| Batch.RowMessage | cracker/hashes.py:47 | as written, work-item j hashes `Length(words[j])` bytes, taken at `j * Length(words[j])` of the packed array |
| Batch.RowMessageIn | cracker/hashes.py:47 | those bytes are where the kernel as written reads them |
| Batch.RowMessagesPacked | cracker/hashes.py:122-123 | numpy's buffers put, as written, every row's bytes where its work-item reads |
| Batch.MessagesPacked | cracker/hashes.py:122-123 | numpy's buffers put every word, NUL-stripped, at the start of its own slot |
| Batch.DigestsAt | cracker/hashes.py:124 | row j of the result rows is the digest of message j |
| Batch.Step | cracker/hashes.py:132-133 | one work-item as written appends its message's digest to the rows already computed |
| Batch.Enqueue | cracker/hashes.py:132-134 | launching the kernel as written over every index fills a fresh result array with the rows' digests, row after row |
| Batch.StridedStep | cracker/hashes.py:132-133 | one work-item reading at `gid * stride` appends its word's digest |
| Batch.StridedEnqueue | cracker/hashes.py:132-134 | launching it over every index fills a fresh result array with every slot's digest |
| Batch.GenerateHashes | cracker/hashes.py:119-136 | as written, the result array is the flattened rows of `AsWrittenRows`, the digests of `RowMessage` |
| Batch.RowMessageWhenAligned | cracker/hashes.py:47 | as written, row j hashes word j when j is 0 or word j fills its slot |
| Batch.StrideMisreads | cracker/hashes.py:47 | for the words "ab" and "c", row 1 hashes "b" and not "c" |
| Batch.StridedHashes | cracker/hashes.py:119-136 | reading at `gid * stride`, the result array is the flattened rows, row j the digest of word j |
| Batch.RowsAt | cracker/hashes.py:124 | row j of `Rows` is word j's digest |
| Batch.RowIsSha256 | cracker/hashes.py:119-136 | for a word shorter than 56 bytes, all below 0x80, its row is the SHA-256 hash of the word less its trailing NULs |
| Batch.FlattenRow | cracker/hashes.py:124 | row j of the (n, 8) result sits at words 8j..8j+8 of the flat buffer |
| Batch.UnflattenFlatten | cracker/hashes.py:124 | reading the flat buffer back as n rows of 8 gives the rows |
| Batch.FlattenStep | cracker/hashes.py:88-95 | writing row gid after rows 0..gid-1 extends the flattened prefix by that row |
| Driver.Contains | cracker/hashes.py:156 | numpy's `passhash in hashes` holds only for a target of 8 or 1 words, and holds whenever some row equals an 8-word target |
| Driver.ContainsIsColumnWise | cracker/hashes.py:156 | `in` passes on one equal column: the row (1, …, 8) passes for the target (1, 0, …, 0) without being equal to it |
| Driver.FirstIndex | cracker/hashes.py:159 | `list.index` gives the first position holding the text, and none exactly when no position holds it |
| Driver.Verdict | cracker/hashes.py:152-160 | `compute` on a chunk with given digest rows raises exactly for the empty chunk; a reported word is one of the chunk whose row's hex text is the target; nothing is reported only when no row equals the decoded target; the missing-row error only when no row's hex text is the target |
| Driver.FoundIsFirstMatch | cracker/hashes.py:156-160 | a reported word is the word of the first row whose hex text is the target |
| Driver.MatchIsFound | cracker/hashes.py:156-160 | when the target decodes to some row's digest and is that row's hex text, `compute` reports a word |
| Driver.UppercaseNeverFound | cracker/hashes.py:157-159 | a target with an uppercase hex digit is never reported |
| Driver.HashOfWordIsFound | cracker/hashes.py:152-160 | with the corrected stride (see Findings): a chunk holding an ASCII word shorter than 56 bytes, not ending in NUL, whose lowercase SHA-256 hex is the target, reports a word |
| Driver.AlignedWordIsFound | cracker/hashes.py:47 | as written: such a word is found when it is the first of its chunk or as long as the chunk's longest word |
| Driver.GenerateHashes | cracker/hashes.py:119-136 | with the corrected stride (see Findings): the (n, 8) result array's rows are the words' digests |
| Driver.HashCracker.constructor | cracker/hashes.py:102-110 | keeps the hex text, its decoded words and the word list; `stopped` starts false |
| Driver.Create | cracker/hashes.py:102-105 | construction fails exactly when the decode fails, with the decode's error |
| Driver.HashCracker.Found | cracker/hashes.py:148-150 | `_found` sets `stopped` |
| Driver.HashCracker.Compute | cracker/hashes.py:152-160 | with the corrected stride (see Findings): `compute` returns the chunk's `Verdict` over `Batch.Rows`, namely the empty-chunk error, nothing, the word, or the missing-row error; `stopped` becomes true exactly when a word is reported and never goes back |
| Driver.HashCracker.Dispatch | cracker/hashes.py:164-166 | a pass of the loop that reaches `compute` yields that chunk's verdict |
| Driver.Scan | cracker/hashes.py:162-168 | once stopped, a run computes no further chunk and stays stopped; it never computes more chunks than the generator yields |
| Driver.HashCracker.Start | cracker/hashes.py:162-168 | the outcome, the final `stopped` and the number of chunks computed are those of `Scan` over the chunks of `_read_chunks(wordlist, 5000)` |
| Driver.StopsAtFind | cracker/hashes.py:162-168 | from unstopped, a run ends stopped exactly when the last chunk it computed reported a word, and every earlier chunk reported nothing |
| Driver.ExhaustsUnlessFound | cracker/hashes.py:162-168 | from unstopped, a run that ends normally without a find has computed every chunk, and the generator did not raise |
| Driver.Chunks | cracker/hashes.py:163 | the chunks `start` reads hold words shorter than 56 |
| Driver.Candidates | cracker/cli.py:11-16 | the enumerator's first sizes as word-list items, all tuples |
| Driver.PermutateNeverHashes | cracker/hashes.py:140-142 | with the enumerator as word list, the generator raises on the empty tuple before it yields a chunk, so `start` raises having computed nothing |
| Enumerator.Combos | cracker/cli.py:15 | the combinations with replacement of size n from lo..m-1 have size n and exist exactly when n is 0 or the range is not empty |
| Enumerator.Block | cracker/cli.py:15 | `combinations_with_replacement(alphabet, n)` is never empty and holds tuples of size n |
| Enumerator.Enumeration | cracker/cli.py:13-16 | the first k sizes of the chain hold at least k tuples, each shorter than k |
| Enumerator.Symbols | cracker/cli.py:12 | a tuple's symbols are drawn from letters then digits |
| Enumerator.CombosShape | cracker/cli.py:15 | every tuple of a size-n block has n indices, is non-decreasing and stays in the alphabet |
| Enumerator.CombosComplete | cracker/cli.py:15 | every non-decreasing tuple of n alphabet indices is in the block |
| Enumerator.CombosSorted | cracker/cli.py:15 | each block is strictly increasing in lexicographic order |
| Enumerator.BlockIsCombinations | cracker/cli.py:15 | a tuple is in the size-n block exactly when it is a non-decreasing tuple of n alphabet indices; the block is sorted and free of duplicates |
| Enumerator.NoReversedPair | cracker/cli.py:15 | a tuple and its distinct reverse are never both in a block |
| Enumerator.EnumerationShape | cracker/cli.py:13-16 | every element of the first k sizes is a non-decreasing tuple over the alphabet, shorter than k |
| Enumerator.EnumerationBySize | cracker/cli.py:13-16 | every element precedes every longer element |
| Enumerator.EnumerationComplete | cracker/cli.py:13-16 | every non-decreasing tuple shorter than k is among the first k sizes |
| Enumerator.FirstIsEmpty | cracker/cli.py:14-15 | the first element is the empty tuple |

## Left out

- The OpenCL context, queue, program build and buffer calls (cracker/hashes.py:107-116, 126-134) are left out because they are foreign runtime calls. The launch is modelled as one call of the work-item method per index.
- `click.echo` (lines 150, 154), `__repr__`, the `crack` command and the commented-out pool are left out, as I/O and argument parsing. setup.py is packaging metadata, so it is left out too.
- The alphabet is the C-locale `string.letters` followed by the digits; other locales are not modelled.
- Enumerator.Enumeration: models the infinite chain by its first k sizes, for any k.
- Driver.HashCracker.Start: the lazy generator is collected before the loop runs. The generator is pure, so `start` sees the same chunks and the same exception at the same point.
- Driver.HashCracker.Compute: the empty chunk raises before any hashing. The source fails when it creates the buffers or at `wordlist[-1]`, and either way the call raises.
- Driver.HashCracker.Compute: uses the corrected batch (`Batch.StridedHashes`, see Findings) and not the one as written.
- Driver.GenerateHashes: is `Batch.StridedHashes`, the corrected batch, and not cracker/hashes.py:119-136 as written, which is `Batch.GenerateHashes`.
- Driver.HashOfWordIsFound: holds for the corrected rows (`Batch.Rows`) only. As written, for the chunk "ab", "c" with the target SHA-256("c"), row 1 is the digest of "b" and nothing is reported; `Driver.AlignedWordIsFound` states the cases the code as written does find.
- Driver.Verdict: is stated for any digest rows; the driver's run (`Verdicts`, `Compute`, `Start`, `StopsAtFind`, `ExhaustsUnlessFound`) applies it to the corrected rows `Batch.Rows`.
- Driver.HashCracker.constructor: requires a target that decodes. The failing decode is modelled by `Driver.Create`.
- Driver.Contains: a target of a shape other than 8 or 1 words is treated as not broadcasting, and the test is false.
- Kernel.Process: requires `length < 256`. The host only passes lengths below 56, and a longer one would write past `w`. The reads at `i >= length`, whose product with `inc` is 0, are not performed.
- Kernel.Hashes: agreement with FIPS 180-4 is proved for fewer than 56 bytes, all below 0x80. Bytes of 0x80 or more are sign-extended, which `Padding.SignExtensionPollutes` exhibits.
- Batch.GenerateHashes: requires every word to be shorter than 256 bytes, which the chunker's limit of 56 guarantees.
- Chunker.ReadChunks: requires `items_in_chunk > 0`. `start` passes 5000.
- The size buffer is a newtype of 32-bit unsigned integers (`Kernel.Uint32`). numpy's `astype(np.uint32)` is exact for these lengths.
- Words are byte strings; the numpy `S` dtype and host byte order beyond the little-endian `fromstring` are not modelled.

## Findings

| source | as written | input that shows it | evidently intended | confidence | as-written member | corrected member |
|---|---|---|---|---|---|---|
| cracker/hashes.py:47 | work-item `gid` reads its bytes at `gid*length`, its own length, but numpy packs the words at `gid*stride` with the stride of the longest word | the words "ab" and "c": the stride is 2 and row 1 hashes the byte "b" at offset 1, not "c" at offset 2 | row `gid` is the hash of word `gid`, read at `gid*stride` | not executed | Batch.StrideMisreads | Batch.StridedHashes |
