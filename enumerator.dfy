/**
  `pass_generator` (cracker/cli.py lines 11-16): for i = 0, 1, 2, ... the
  tuples of `combinations_with_replacement(alphabet, i)`, one size after
  another, over the 62 symbols of `string.letters + string.digits` in the C
  locale. A combination with replacement of size n is a non-decreasing
  sequence of n alphabet indices; the block of size n lists all of them in
  lexicographic order, each once. The infinite chain is modelled by its
  prefix of the sizes below k.
 */
module Enumerator {
  /** `string.letters + string.digits`. */
  const Alphabet: string := "abcdefghijklmnopqrstuvwxyzABCDEFGHIJKLMNOPQRSTUVWXYZ0123456789"

  type Indices = seq<nat>

  predicate NonDecreasing(c: Indices) {
    forall i, j :: 0 <= i <= j < |c| ==> c[i] <= c[j]
  }

  predicate InRange(c: Indices, lo: nat, m: nat) {
    forall i :: 0 <= i < |c| ==> lo <= c[i] < m
  }

  /** x put in front of every sequence of cs. */
  function Prepend(x: nat, cs: seq<Indices>): (r: seq<Indices>)
    ensures |r| == |cs|
  {
    seq(|cs|, i requires 0 <= i < |cs| => [x] + cs[i])
  }

  /** The combinations with replacement of size n drawn from lo, ..., m - 1,
      in the order itertools yields them: those starting with lo first. */
  function Combos(n: nat, lo: nat, m: nat): (r: seq<Indices>)
    ensures |r| > 0 <==> n == 0 || lo < m
    ensures forall i :: 0 <= i < |r| ==> |r[i]| == n
    decreases n, m - lo
  {
    if n == 0 then [[]]
    else if lo >= m then []
    else Prepend(lo, Combos(n - 1, lo, m)) + Combos(n, lo + 1, m)
  }

  /** `combinations_with_replacement(alphabet, n)`, as index tuples: never
      empty, since the alphabet is not. */
  function Block(n: nat): (r: seq<Indices>)
    ensures |r| > 0 && forall i :: 0 <= i < |r| ==> |r[i]| == n
  {
    Combos(n, 0, |Alphabet|)
  }

  /** `chain.from_iterable` over the sizes 0 to k - 1: at least one tuple of
      each size. */
  function Enumeration(k: nat): (r: seq<Indices>)
    ensures |r| >= k && forall i :: 0 <= i < |r| ==> |r[i]| < k
  {
    if k == 0 then [] else Enumeration(k - 1) + Block(k - 1)
  }

  /** The tuple of symbols an index sequence stands for. */
  function Symbols(c: Indices): (r: seq<char>)
    requires InRange(c, 0, |Alphabet|)
    ensures |r| == |c| && forall i :: 0 <= i < |r| ==> r[i] in Alphabet
  {
    seq(|c|, i requires 0 <= i < |c| => Alphabet[c[i]])
  }

  // Every element is a non-decreasing tuple of the right size.

  /** c is a combination with replacement of size n over lo, ..., m - 1. */
  predicate Shape(c: Indices, n: nat, lo: nat, m: nat) {
    |c| == n && NonDecreasing(c) && InRange(c, lo, m)
  }

  predicate AllShape(cs: seq<Indices>, n: nat, lo: nat, m: nat) {
    forall i :: 0 <= i < |cs| ==> Shape(cs[i], n, lo, m)
  }

  lemma PrependShape(cs: seq<Indices>, n: nat, lo: nat, m: nat)
    requires lo < m && AllShape(cs, n, lo, m)
    ensures AllShape(Prepend(lo, cs), n + 1, lo, m)
  {
    var p := Prepend(lo, cs);
    forall i | 0 <= i < |p|
      ensures Shape(p[i], n + 1, lo, m)
    {
      assert p[i] == [lo] + cs[i];
      assert Shape(cs[i], n, lo, m);
    }
  }

  lemma {:induction false} CombosShape(n: nat, lo: nat, m: nat)
    ensures AllShape(Combos(n, lo, m), n, lo, m)
    decreases n, m - lo
  {
    if n > 0 && lo < m {
      CombosShape(n - 1, lo, m);
      CombosShape(n, lo + 1, m);
      PrependShape(Combos(n - 1, lo, m), n - 1, lo, m);
      var head, tail := Prepend(lo, Combos(n - 1, lo, m)), Combos(n, lo + 1, m);
      forall i | 0 <= i < |head + tail|
        ensures Shape((head + tail)[i], n, lo, m)
      {
        if i >= |head| {
          assert Shape(tail[i - |head|], n, lo + 1, m);
        }
      }
    }
  }

  /** Every non-decreasing tuple of the right size is listed. */
  lemma {:induction false} CombosComplete(n: nat, lo: nat, m: nat, c: Indices)
    requires |c| == n && NonDecreasing(c) && InRange(c, lo, m)
    ensures c in Combos(n, lo, m)
    decreases n, m - lo
  {
    if n > 0 {
      if c[0] == lo {
        TailShape(c, lo, m);
        CombosComplete(n - 1, lo, m, c[1..]);
        InHead(n, lo, m, c[1..]);
        assert [lo] + c[1..] == c;
      } else {
        AboveFirst(c, lo, m);
        CombosComplete(n, lo + 1, m, c);
        InTail(n, lo, m, c);
      }
    }
  }

  /** Dropping the first index keeps a tuple non-decreasing and in range. */
  lemma TailShape(c: Indices, lo: nat, m: nat)
    requires |c| > 0 && NonDecreasing(c) && InRange(c, lo, m)
    ensures NonDecreasing(c[1..]) && InRange(c[1..], lo, m)
  {
    var t := c[1..];
    forall i | 0 <= i < |t|
      ensures lo <= t[i] < m
    {
      assert t[i] == c[i + 1];
    }
    forall i, j | 0 <= i <= j < |t|
      ensures t[i] <= t[j]
    {
      assert t[i] == c[i + 1] && t[j] == c[j + 1];
    }
  }

  /** A non-decreasing tuple whose first index is above lo lies above lo. */
  lemma AboveFirst(c: Indices, lo: nat, m: nat)
    requires |c| > 0 && NonDecreasing(c) && InRange(c, lo, m) && c[0] != lo
    ensures InRange(c, lo + 1, m)
  {
    forall i | 0 <= i < |c|
      ensures lo + 1 <= c[i] < m
    {
      assert c[0] <= c[i];
    }
  }

  /** A tuple of the block from lo, with lo put in front, is a tuple one
      longer from lo. */
  lemma InHead(n: nat, lo: nat, m: nat, t: Indices)
    requires n > 0 && lo < m && t in Combos(n - 1, lo, m)
    ensures [lo] + t in Combos(n, lo, m)
  {
    var cs := Combos(n - 1, lo, m);
    var k :| 0 <= k < |cs| && cs[k] == t;
    assert Prepend(lo, cs)[k] == [lo] + t;
  }

  /** The tuples from lo + 1 are among those from lo. */
  lemma InTail(n: nat, lo: nat, m: nat, c: Indices)
    requires n > 0 && lo < m && c in Combos(n, lo + 1, m)
    ensures c in Combos(n, lo, m)
  {
  }

  // Lexicographic order, hence no duplicates.

  /** a comes strictly before b, comparing the first index where they differ. */
  predicate LexLess(a: Indices, b: Indices) {
    |a| > 0 && |b| > 0 && (a[0] < b[0] || (a[0] == b[0] && LexLess(a[1..], b[1..])))
  }

  predicate StrictlySorted(cs: seq<Indices>) {
    forall i, j :: 0 <= i < j < |cs| ==> LexLess(cs[i], cs[j])
  }

  lemma {:induction false} LexLessIrreflexive(a: Indices)
    ensures !LexLess(a, a)
  {
    if |a| > 0 {
      LexLessIrreflexive(a[1..]);
    }
  }

  lemma PrependSorted(x: nat, cs: seq<Indices>)
    requires StrictlySorted(cs)
    ensures StrictlySorted(Prepend(x, cs))
  {
    var p := Prepend(x, cs);
    forall i, j | 0 <= i < j < |p|
      ensures LexLess(p[i], p[j])
    {
      assert p[i][1..] == cs[i] && p[j][1..] == cs[j];
    }
  }

  lemma {:induction false} CombosSorted(n: nat, lo: nat, m: nat)
    ensures StrictlySorted(Combos(n, lo, m))
    decreases n, m - lo
  {
    if n > 0 && lo < m {
      CombosSorted(n - 1, lo, m);
      CombosSorted(n, lo + 1, m);
      PrependSorted(lo, Combos(n - 1, lo, m));
      CombosShape(n - 1, lo, m);
      CombosShape(n, lo + 1, m);
      var head, tail := Prepend(lo, Combos(n - 1, lo, m)), Combos(n, lo + 1, m);
      forall i, j | 0 <= i < |head| && 0 <= j < |tail|
        ensures LexLess(head[i], tail[j])
      {
        assert head[i][0] == lo;
        assert Shape(tail[j], n, lo + 1, m);
      }
      SortedAppend(head, tail);
    }
  }

  lemma SortedAppend(a: seq<Indices>, b: seq<Indices>)
    requires StrictlySorted(a) && StrictlySorted(b)
    requires forall i, j :: 0 <= i < |a| && 0 <= j < |b| ==> LexLess(a[i], b[j])
    ensures StrictlySorted(a + b)
  {
    var s := a + b;
    forall i, j | 0 <= i < j < |s|
      ensures LexLess(s[i], s[j])
    {
      if j < |a| {
        assert s[i] == a[i] && s[j] == a[j];
      } else if i < |a| {
        assert s[i] == a[i] && s[j] == b[j - |a|];
      } else {
        assert s[i] == b[i - |a|] && s[j] == b[j - |a|];
      }
    }
  }

  /** Each block lists every non-decreasing index tuple of its size, once
      each, in lexicographic order, and nothing else. */
  lemma BlockIsCombinations(n: nat)
    ensures forall c :: c in Block(n) <==> |c| == n && NonDecreasing(c) && InRange(c, 0, |Alphabet|)
    ensures StrictlySorted(Block(n))
    ensures forall i, j :: 0 <= i < j < |Block(n)| ==> Block(n)[i] != Block(n)[j]
  {
    CombosShape(n, 0, |Alphabet|);
    forall c | c in Block(n)
      ensures Shape(c, n, 0, |Alphabet|)
    {
      var i :| 0 <= i < |Block(n)| && Block(n)[i] == c;
    }
    forall c | |c| == n && NonDecreasing(c) && InRange(c, 0, |Alphabet|)
      ensures c in Block(n)
    {
      CombosComplete(n, 0, |Alphabet|, c);
    }
    CombosSorted(n, 0, |Alphabet|);
    forall i, j | 0 <= i < j < |Block(n)|
      ensures Block(n)[i] != Block(n)[j]
    {
      LexLessIrreflexive(Block(n)[i]);
    }
  }

  /** Of two tuples that are each other's reverse, such as (a, b) and
      (b, a), at most one is produced, unless they are equal. */
  lemma NoReversedPair(c: Indices, n: nat)
    requires c in Block(n)
    requires Reverse(c) != c
    ensures Reverse(c) !in Block(n)
  {
    BlockIsCombinations(n);
    var r := Reverse(c);
    if NonDecreasing(r) {
      forall i | 0 <= i < |c|
        ensures r[i] == c[i]
      {
        assert r[i] == c[|c| - 1 - i];
        if i <= |c| - 1 - i {
          assert c[i] <= c[|c| - 1 - i] && r[|c| - 1 - i] <= r[i] by {
            assert r[|c| - 1 - i] == c[i];
          }
        } else {
          assert c[|c| - 1 - i] <= c[i] && r[i] <= r[|c| - 1 - i] by {
            assert r[|c| - 1 - i] == c[i];
          }
        }
      }
    }
  }

  function Reverse(c: Indices): (r: Indices)
    ensures |r| == |c| && forall i :: 0 <= i < |c| ==> r[i] == c[|c| - 1 - i]
  {
    seq(|c|, i requires 0 <= i < |c| => c[|c| - 1 - i])
  }

  // The chain of blocks.

  /** Every element of the chain up to size k is a combination of a size
      below k. */
  lemma {:induction false} EnumerationShape(k: nat)
    ensures forall i :: 0 <= i < |Enumeration(k)| ==> Shape(Enumeration(k)[i], |Enumeration(k)[i]|, 0, |Alphabet|) && |Enumeration(k)[i]| < k
  {
    if k > 0 {
      EnumerationShape(k - 1);
      CombosShape(k - 1, 0, |Alphabet|);
      var e: seq<Indices>, b: seq<Indices> := Enumeration(k - 1), Block(k - 1);
      assert Enumeration(k) == e + b;
      forall i | 0 <= i < |e + b|
        ensures Shape((e + b)[i], |(e + b)[i]|, 0, |Alphabet|) && |(e + b)[i]| < k
      {
        if i >= |e| {
          assert Shape(b[i - |e|], k - 1, 0, |Alphabet|);
        } else {
          assert (e + b)[i] == e[i];
        }
      }
    }
  }

  /** The sizes come in the order 0, 1, 2, ...: an element of size n
      precedes every element of size n + 1. */
  lemma {:induction false} EnumerationBySize(k: nat)
    ensures forall i, j :: 0 <= i < j < |Enumeration(k)| ==> |Enumeration(k)[i]| <= |Enumeration(k)[j]|
  {
    if k > 0 {
      EnumerationBySize(k - 1);
      EnumerationShape(k - 1);
      CombosShape(k - 1, 0, |Alphabet|);
      var e: seq<Indices>, b: seq<Indices> := Enumeration(k - 1), Block(k - 1);
      assert Enumeration(k) == e + b;
      forall i, j | 0 <= i < j < |e + b|
        ensures |(e + b)[i]| <= |(e + b)[j]|
      {
        if j >= |e| {
          assert Shape(b[j - |e|], k - 1, 0, |Alphabet|);
          if i >= |e| {
            assert Shape(b[i - |e|], k - 1, 0, |Alphabet|);
          } else {
            assert (e + b)[i] == e[i];
          }
        } else {
          assert (e + b)[i] == e[i] && (e + b)[j] == e[j];
        }
      }
    }
  }

  /** Every combination of a size below k appears in the chain before size k. */
  lemma {:induction false} EnumerationComplete(k: nat, c: Indices)
    requires |c| < k && Shape(c, |c|, 0, |Alphabet|)
    ensures c in Enumeration(k)
  {
    assert Enumeration(k) == Enumeration(k - 1) + Block(k - 1);
    if |c| == k - 1 {
      CombosComplete(k - 1, 0, |Alphabet|, c);
    } else {
      EnumerationComplete(k - 1, c);
    }
  }

  /** The very first candidate is the empty tuple. */
  lemma {:induction false} FirstIsEmpty(k: nat)
    requires k > 0
    ensures |Enumeration(k)| > 0 && Enumeration(k)[0] == []
  {
    if k > 1 {
      FirstIsEmpty(k - 1);
    }
  }
}
