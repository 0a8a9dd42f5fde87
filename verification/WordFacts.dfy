/** Facts on 32-bit words that stand alone, away from the definitions that use them. */
module WordFacts {
  lemma RotatedParts(x: bv32, n: bv32)
    requires 1 < n < 32
    ensures ((((x >> 1) | (x << 31)) >> (n - 1)) | (((x >> 1) | (x << 31)) << (32 - (n - 1)))
      == (x >> n) | (x << (32 - n)))
  {}

  lemma ShiftedTwice(x: bv32, n: bv32)
    requires 1 < n < 32
    ensures (x >> 1) >> (n - 1) == x >> n
  {}

  function Inverted(x: bv32): bv32 { !x }

  function InvertedShift(y: bv32, n: bv32): bv32
    requires n < 32
  {
    Inverted(Right(y, n))
  }

  function Right(y: bv32, n: bv32): bv32
    requires n < 32
  {
    y >> n
  }

  lemma RightTwice(y: bv32, n: bv32)
    requires 1 < n < 32
    ensures Right(Right(y, 1), n - 1) == Right(y, n)
  {
    ShiftedTwice(y, n);
  }

  lemma SignedOneStep(x: bv32)
    requires x & 0x80000000 != 0
    ensures !(!x >> 1) == (x >> 1) | 0x80000000
  {}

  lemma InverseOfShifted(x: bv32)
    requires x & 0x80000000 != 0
    ensures Inverted((x >> 1) | 0x80000000) == Right(Inverted(x), 1)
  {}

  lemma InvertedFurther(y: bv32, n: bv32)
    requires 1 < n < 32
    ensures InvertedShift(Right(y, 1), n - 1) == InvertedShift(y, n)
  {
    RightTwice(y, n);
    hide Right, Inverted;
  }

  function Difference(x: bv32, y: bv32): bv32 { x ^ y }

  lemma NoDifference(x: bv32, y: bv32)
    requires Difference(x, y) == 0
    ensures x == y
  {}

  lemma OneLess(a: bv32, n: bv32)
    ensures a - n * 4 + 4 == a - (n - 1) * 4
  {}
}
