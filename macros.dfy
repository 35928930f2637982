/**
  The macros at the top of the OpenCL kernel in cracker/hashes.py (`rot`,
  `Ch`, `Ma`) over the OpenCL built-ins `rotate` and `bitselect`, and their
  agreement with the functions of section 4.1.2 of FIPS 180-4.
 */
module Macros {
  import F = Fips180

  // OpenCL built-ins and the kernel's macros.

  /** OpenCL `rotate`: a left rotation by the amount modulo 32. */
  function Rotate(v: bv32, n: bv32): bv32 {
    var r := n & 31;
    (v << r) | (v >> ((32 - r) & 31))
  }

  /** OpenCL `bitselect(a, b, c)`: bits of b where c is set, of a elsewhere. */
  function Bitselect(a: bv32, b: bv32, c: bv32): bv32 {
    (a & !c) | (b & c)
  }

  /** The macro `rot(x, y)`, a left rotation by 32 - y. */
  function Rot(x: bv32, y: bv32): bv32 {
    Rotate(x, 32 - y)
  }

  /** The macro `Ch(x, y, z)`. */
  function Ch(x: bv32, y: bv32, z: bv32): bv32 {
    Bitselect(z, y, x)
  }

  /** The macro `Ma(x, y, z)`. */
  function Ma(x: bv32, y: bv32, z: bv32): bv32 {
    Ch(z ^ x, y, x)
  }

  // The preprocessor expands `rot(x, y)` for a literal y into `rotate(x, 32 - y)`
  // with a constant amount; the kernel model uses that expansion.

  lemma Rot2(x: bv32)
    ensures Rot(x, 2) == x.RotateLeft(30)
  {
  }

  lemma Rot13(x: bv32)
    ensures Rot(x, 13) == x.RotateLeft(19)
  {
  }

  lemma Rot22(x: bv32)
    ensures Rot(x, 22) == x.RotateLeft(10)
  {
  }

  lemma Rot6(x: bv32)
    ensures Rot(x, 6) == x.RotateLeft(26)
  {
  }

  lemma Rot11(x: bv32)
    ensures Rot(x, 11) == x.RotateLeft(21)
  {
  }

  lemma Rot25(x: bv32)
    ensures Rot(x, 25) == x.RotateLeft(7)
  {
  }

  lemma Rot7(x: bv32)
    ensures Rot(x, 7) == x.RotateLeft(25)
  {
  }

  lemma Rot18(x: bv32)
    ensures Rot(x, 18) == x.RotateLeft(14)
  {
  }

  lemma Rot17(x: bv32)
    ensures Rot(x, 17) == x.RotateLeft(15)
  {
  }

  lemma Rot19(x: bv32)
    ensures Rot(x, 19) == x.RotateLeft(13)
  {
  }

  /** `Ch` through `bitselect` is Ch of section 4.1.2 of FIPS 180-4. */
  lemma ChIsCh(x: bv32, y: bv32, z: bv32)
    ensures Ch(x, y, z) == F.Ch(x, y, z)
  {
    ChSelects(x, y, z);
    ChOfFips(x, y, z);
    SelectIsCh(x, y, z);
  }

  /** `Ma` through `Ch` is Maj of section 4.1.2 of FIPS 180-4. */
  lemma MaIsMaj(x: bv32, y: bv32, z: bv32)
    ensures Ma(x, y, z) == F.Maj(x, y, z)
  {
    MaSelects(x, y, z);
    MajOfFips(x, y, z);
    SelectIsMaj(x, y, z);
  }

  // The rotation expressions of the kernel, each `rot` written as its
  // expansion (the lemmas above).

  /** s0 of the schedule loop (line 54): `rot(x, 7) ^ rot(x, 18) ^ (x >> 3)`. */
  function ScheduleS0(x: bv32): bv32 {
    x.RotateLeft(25) ^ x.RotateLeft(14) ^ (x >> 3)
  }

  /** s1 of the schedule loop (line 55): `rot(x, 17) ^ rot(x, 19) ^ (x >> 10)`. */
  function ScheduleS1(x: bv32): bv32 {
    x.RotateLeft(15) ^ x.RotateLeft(13) ^ (x >> 10)
  }

  /** S0 of the round loop (line 70): `rot(a, 2) ^ rot(a, 13) ^ rot(a, 22)`. */
  function RoundS0(a: bv32): bv32 {
    a.RotateLeft(30) ^ a.RotateLeft(19) ^ a.RotateLeft(10)
  }

  /** S1 of the round loop (line 71): `rot(e, 6) ^ rot(e, 11) ^ rot(e, 25)`. */
  function RoundS1(e: bv32): bv32 {
    e.RotateLeft(26) ^ e.RotateLeft(21) ^ e.RotateLeft(7)
  }

  lemma ScheduleS0IsSigma0(x: bv32)
    ensures ScheduleS0(x) == F.SmallSigma0(x)
  {
  }

  lemma ScheduleS1IsSigma1(x: bv32)
    ensures ScheduleS1(x) == F.SmallSigma1(x)
  {
  }

  lemma RoundS0IsSigma0(a: bv32)
    ensures RoundS0(a) == F.BigSigma0(a)
  {
  }

  lemma RoundS1IsSigma1(e: bv32)
    ensures RoundS1(e) == F.BigSigma1(e)
  {
  }

  // The steps of the agreement proofs: each unfolds one definition, or is
  // one identity on plain bit-vector expressions.

  lemma ChSelects(x: bv32, y: bv32, z: bv32)
    ensures Ch(x, y, z) == (z & !x) | (y & x)
  {
  }

  lemma MaSelects(x: bv32, y: bv32, z: bv32)
    ensures Ma(x, y, z) == (x & !(z ^ x)) | (y & (z ^ x))
  {
  }

  lemma ChOfFips(x: bv32, y: bv32, z: bv32)
    ensures F.Ch(x, y, z) == (x & y) ^ (!x & z)
  {
  }

  lemma MajOfFips(x: bv32, y: bv32, z: bv32)
    ensures F.Maj(x, y, z) == (x & y) ^ (x & z) ^ (y & z)
  {
  }

  lemma SelectIsCh(x: bv32, y: bv32, z: bv32)
    ensures (z & !x) | (y & x) == (x & y) ^ (!x & z)
  {
  }

  lemma SelectIsMaj(x: bv32, y: bv32, z: bv32)
    ensures (x & !(z ^ x)) | (y & (z ^ x)) == (x & y) ^ (x & z) ^ (y & z)
  {
  }
}
