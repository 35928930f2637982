/**
  `HashCracker._read_chunks` (cracker/hashes.py lines 138-146): the word list
  read in chunks of at most `items_in_chunk` words. An item of 56 or more
  characters is dropped (its length is taken before stripping), a kept item
  loses its trailing line ends, and after every `items_in_chunk` items of the
  source, dropped ones included, the pending chunk is emitted if it is not
  empty. The last chunk is emitted even when empty. An item is a line of a
  word-list file or, with `--permutate`, a tuple from the enumerator; a
  tuple has no `rstrip`, so a short tuple ends the generator with an
  AttributeError.
 */
module Chunker {
  /** An item of the word list: a line of bytes, or a tuple of symbols. */
  datatype Item = Line(text: seq<bv8>) | Combination(symbols: seq<char>)

  type Word = seq<bv8>

  type Chunk = seq<Word>

  /** `len(item)`. */
  function Length(item: Item): nat {
    match item
    case Line(text) => |text|
    case Combination(symbols) => |symbols|
  }

  /** Items of this length or more are dropped (line 141). */
  const Limit := 56

  predicate IsLineEnd(b: bv8) {
    b == 0x0a || b == 0x0d
  }

  /** `text.rstrip('\n\r')`: the longest prefix not ending in a line end. */
  function RStrip(text: Word): (r: Word)
    ensures |r| <= |text| && r == text[..|r|]
    ensures |r| == 0 || !IsLineEnd(r[|r| - 1])
    ensures forall i :: |r| <= i < |text| ==> IsLineEnd(text[i])
  {
    if |text| > 0 && IsLineEnd(text[|text| - 1]) then RStrip(text[..|text| - 1]) else text
  }

  /** The generator's state: the chunks yielded, the pending `items`, and
      whether the generator has raised. */
  datatype State = State(done: seq<Chunk>, items: Chunk, failed: bool)

  /** A short tuple: `rstrip` is looked up on it and raises. */
  predicate Raises(item: Item) {
    Length(item) < Limit && item.Combination?
  }

  /** The pending items after the filter and append of lines 141-142. */
  function Pending(items: Chunk, item: Item): Chunk
    requires !Raises(item)
  {
    if Length(item) < Limit then items + [RStrip(item.text)] else items
  }

  /** One pass of the loop body (lines 140-144) over the item at `index`. */
  function Step(s: State, index: nat, item: Item, size: nat): (r: State)
    requires size > 0
    ensures s.failed ==> r == s
    ensures r.failed <==> s.failed || Raises(item)
    ensures |s.done| <= |r.done| <= |s.done| + 1 && r.done[..|s.done|] == s.done
  {
    if s.failed then s
    else if Raises(item) then State(s.done, s.items, true)
    else
      var items := Pending(s.items, item);
      if (index + 1) % size == 0 && |items| > 0 then State(s.done + [items], [], false)
      else State(s.done, items, false)
  }

  /** The state after the first n items of the source. */
  function Run(source: seq<Item>, n: nat, size: nat): (r: State)
    requires n <= |source| && size > 0
    ensures |r.done| <= n
  {
    if n == 0 then State([], [], false) else Step(Run(source, n - 1, size), n - 1, source[n - 1], size)
  }

  /** Everything the generator yields: the chunks of the loop and, unless it
      raised, the final `yield items` (line 146). */
  function Chunks(source: seq<Item>, size: nat): (r: seq<Chunk>)
    requires size > 0
    ensures |r| <= |source| + 1
    ensures !Run(source, |source|, size).failed ==> |r| > 0
  {
    var s := Run(source, |source|, size);
    if s.failed then s.done else s.done + [s.items]
  }

  /** `_read_chunks(seq, items_in_chunk)`, collected: the chunks it yields and
      whether it ended by raising. */
  method ReadChunks(source: seq<Item>, size: nat) returns (chunks: seq<Chunk>, failed: bool)
    requires size > 0
    ensures chunks == Chunks(source, size) && failed == Run(source, |source|, size).failed
  {
    var done: seq<Chunk> := [];
    var items: Chunk := [];
    var index := 0;
    while index < |source|
      invariant 0 <= index <= |source|
      invariant Run(source, index, size) == State(done, items, false)
    {
      var item := source[index];
      ghost var before := State(done, items, false);
      if Raises(item) {
        FailedStays(source, index + 1, |source|, size);
        return done, true;
      }
      if Length(item) < Limit {
        items := items + [RStrip(item.text)];
      }
      assert items == Pending(before.items, item);
      if (index + 1) % size == 0 && |items| > 0 {
        done := done + [items];
        items := [];
      }
      assert State(done, items, false) == Step(before, index, item, size);
      index := index + 1;
    }
    chunks := done + [items];
    failed := false;
  }

  /** Once the generator has raised, later items change nothing. */
  lemma {:induction false} FailedStays(source: seq<Item>, n: nat, m: nat, size: nat)
    requires n <= m <= |source| && size > 0 && Run(source, n, size).failed
    ensures Run(source, m, size) == Run(source, n, size)
  {
    if m > n {
      FailedStays(source, n, m - 1, size);
    }
  }

  // The words the chunks hold.

  /** The concatenation of the chunks. */
  function Flatten(cs: seq<Chunk>): (r: seq<Word>)
  {
    if |cs| == 0 then [] else Flatten(cs[..|cs| - 1]) + cs[|cs| - 1]
  }

  /** The source's short lines, stripped, in order. */
  function Kept(source: seq<Item>): (r: seq<Word>)
  {
    if |source| == 0 then []
    else
      var last := source[|source| - 1];
      if Length(last) < Limit && last.Line? then Kept(source[..|source| - 1]) + [RStrip(last.text)]
      else Kept(source[..|source| - 1])
  }

  /** Some item is a tuple short enough to reach `rstrip`. */
  predicate HasShortTuple(source: seq<Item>) {
    exists i :: 0 <= i < |source| && Raises(source[i])
  }

  /** The generator raises exactly when the source holds a short tuple. */
  lemma {:induction false} RunFails(source: seq<Item>, n: nat, size: nat)
    requires n <= |source| && size > 0
    ensures Run(source, n, size).failed <==> HasShortTuple(source[..n])
  {
    if n > 0 {
      RunFails(source, n - 1, size);
      ShortTupleSplit(source, n);
    }
  }

  lemma ShortTupleSplit(source: seq<Item>, n: nat)
    requires 0 < n <= |source|
    ensures HasShortTuple(source[..n]) <==> HasShortTuple(source[..n - 1]) || Raises(source[n - 1])
  {
    var p := source[..n];
    assert p[..n - 1] == source[..n - 1];
    if HasShortTuple(p) {
      var i :| 0 <= i < n && Raises(p[i]);
      if i < n - 1 {
        assert p[..n - 1][i] == p[i];
      }
    }
    if HasShortTuple(source[..n - 1]) {
      var i :| 0 <= i < n - 1 && Raises(source[..n - 1][i]);
      assert p[i] == source[..n - 1][i];
    }
    assert p[n - 1] == source[n - 1];
  }

  /** Without a short tuple, the chunks so far and the pending items hold
      exactly the kept words, in source order. */
  lemma {:induction false} RunKeeps(source: seq<Item>, n: nat, size: nat)
    requires n <= |source| && size > 0 && !Run(source, n, size).failed
    ensures Flatten(Run(source, n, size).done) + Run(source, n, size).items == Kept(source[..n])
  {
    if n > 0 {
      var s := Run(source, n - 1, size);
      RunKeeps(source, n - 1, size);
      StepKeeps(s, n - 1, source[n - 1], size);
      KeptStep(source, n);
    }
  }

  /** One pass of the loop moves no word: the chunks and pending items after
      it hold those before it and the item's stripped text if kept. */
  lemma StepKeeps(s: State, index: nat, item: Item, size: nat)
    requires size > 0 && !s.failed && !Raises(item)
    ensures var r := Step(s, index, item, size);
      Flatten(r.done) + r.items == Pending(Flatten(s.done) + s.items, item)
  {
    var items := Pending(s.items, item);
    if (index + 1) % size == 0 && |items| > 0 {
      FlattenAppend(s.done, items);
    }
  }

  /** One more item extends the kept words as it extends the pending items. */
  lemma KeptStep(source: seq<Item>, n: nat)
    requires 0 < n <= |source| && !Raises(source[n - 1])
    ensures Kept(source[..n]) == Pending(Kept(source[..n - 1]), source[n - 1])
  {
    assert source[..n][..n - 1] == source[..n - 1];
  }

  lemma FlattenAppend(cs: seq<Chunk>, c: Chunk)
    ensures Flatten(cs + [c]) == Flatten(cs) + c
  {
    assert (cs + [c])[..|cs|] == cs;
  }

  /** Every chunk yielded by the loop holds between 1 and `size` words, and
      the pending items are fewer than `size`, and no more than the items
      read since the last multiple of `size` while nothing has failed. */
  lemma {:induction false} RunBounds(source: seq<Item>, n: nat, size: nat)
    requires n <= |source| && size > 0
    ensures var s := Run(source, n, size);
      && (forall i :: 0 <= i < |s.done| ==> 0 < |s.done[i]| <= size)
      && |s.items| < size
      && (!s.failed ==> |s.items| <= n % size)
  {
    if n > 0 {
      RunBounds(source, n - 1, size);
      var s := Run(source, n - 1, size);
      if !s.failed && !Raises(source[n - 1]) {
        var items := Pending(s.items, source[n - 1]);
        assert |items| <= (n - 1) % size + 1;
        NextRemainder(n, size);
      }
    }
  }

  /** One more item moves the remainder up by one, or back to 0 at a multiple. */
  lemma NextRemainder(n: nat, size: nat)
    requires n > 0 && size > 0
    ensures (n - 1) % size + 1 <= size
    ensures n % size != 0 ==> (n - 1) % size + 1 == n % size
  {
    var q, r := (n - 1) / size, (n - 1) % size;
    assert n - 1 == q * size + r;
    if r + 1 < size {
      RemainderOf(n, size, q, r + 1);
    } else {
      assert n == (q + 1) * size + 0;
      RemainderOf(n, size, q + 1, 0);
    }
  }

  /** The remainder is the unique r in [0, size) with y = q * size + r. */
  lemma RemainderOf(y: int, size: int, q: int, r: int)
    requires size > 0 && 0 <= r < size && y == q * size + r
    ensures y % size == r
  {
    var d, m := y / size, y % size;
    assert y == d * size + m;
    assert (d - q) * size == r - m;
    MultipleBound(d - q, size);
  }

  lemma MultipleBound(k: int, size: int)
    requires size > 0
    ensures k >= 1 ==> k * size >= size
    ensures k <= -1 ==> k * size <= -size
  {
  }

  /** Every word of the chunk is shorter than the limit. */
  predicate AllShort(c: Chunk) {
    forall j :: 0 <= j < |c| ==> |c[j]| < Limit
  }

  /** Every word the generator holds was shorter than the limit. */
  lemma {:induction false} RunShort(source: seq<Item>, n: nat, size: nat)
    requires n <= |source| && size > 0
    ensures var s := Run(source, n, size);
      (forall i :: 0 <= i < |s.done| ==> AllShort(s.done[i])) && AllShort(s.items)
  {
    if n > 0 {
      RunShort(source, n - 1, size);
      var s := Run(source, n - 1, size);
      if !s.failed && !Raises(source[n - 1]) {
        var item := source[n - 1];
        if Length(item) < Limit {
          var w := RStrip(item.text);
          assert Pending(s.items, item) == s.items + [w];
        }
        assert AllShort(Pending(s.items, item));
      }
    }
  }

  /** The chunks hold the source's short lines, stripped and in order,
      unless the source holds a short tuple, on which the generator raises. */
  lemma ChunksKeep(source: seq<Item>, size: nat)
    requires size > 0
    ensures !HasShortTuple(source) ==> Flatten(Chunks(source, size)) == Kept(source)
    ensures HasShortTuple(source) <==> Run(source, |source|, size).failed
  {
    assert source[..|source|] == source;
    RunFails(source, |source|, size);
    if !HasShortTuple(source) {
      RunKeeps(source, |source|, size);
      var s := Run(source, |source|, size);
      assert (s.done + [s.items])[..|s.done|] == s.done;
    }
  }

  /** Every chunk holds at most `size` words, each shorter than 56; every
      chunk but a final one yielded after the loop is non-empty. */
  lemma ChunksBounded(source: seq<Item>, size: nat)
    requires size > 0
    ensures var cs := Chunks(source, size);
      && (forall i :: 0 <= i < |cs| ==> |cs[i]| <= size)
      && (forall i :: 0 <= i < |cs| - 1 ==> |cs[i]| > 0)
      && (Run(source, |source|, size).failed ==> forall i :: 0 <= i < |cs| ==> |cs[i]| > 0)
      && (forall i :: 0 <= i < |cs| ==> AllShort(cs[i]))
  {
    RunBounds(source, |source|, size);
    RunShort(source, |source|, size);
  }
}
