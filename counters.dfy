/** The static `int nextId` counters of Job and JobField: Java `int`s, so
    `nextId++` wraps from 2^31 - 1 to -2^31. */
module Counters {

  newtype int32 = x: int | -0x8000_0000 <= x < 0x8000_0000

  const MaxInt: int32 := 0x7fff_ffff
  const MinInt: int32 := -0x8000_0000

  /** The value of `nextId` after `nextId++`: n + 1 reduced to 32-bit two's
      complement. */
  function Successor(n: int32): (r: int32)
    ensures n < MaxInt ==> r as int == n as int + 1
  {
    if n == MaxInt then MinInt else n + 1
  }

  /** Successor is n + 1 reduced to 32-bit two's complement, as Java's `int`
      addition is. */
  lemma SuccessorTwosComplement(n: int32)
    ensures Successor(n) as int == (n as int + 1 + 0x8000_0000) % 0x1_0000_0000 - 0x8000_0000
  {
  }

  /** The value of `nextId` after k increments. */
  function Advance(n: int32, k: nat): int32 {
    if k == 0 then n else Successor(Advance(n, k - 1))
  }

  /** Without passing 2^31 - 1, k increments add exactly k. */
  lemma {:induction false} AdvanceNoWrap(n: int32, k: nat)
    requires n as int + k <= MaxInt as int
    ensures Advance(n, k) as int == n as int + k
  {
    if k > 0 {
      AdvanceNoWrap(n, k - 1);
    }
  }

  /** Advancing by a and then by b is advancing by a + b. */
  lemma {:induction false} AdvanceAdd(n: int32, a: nat, b: nat)
    ensures Advance(Advance(n, a), b) == Advance(n, a + b)
  {
    if b > 0 {
      AdvanceAdd(n, a, b - 1);
    }
  }

  /** Objects created one after another get strictly increasing, hence distinct,
      ids as long as the counter does not wrap. */
  lemma AdvanceIncreasing(n: int32, i: nat, j: nat)
    requires i < j && n as int + j <= MaxInt as int
    ensures Advance(n, i) < Advance(n, j)
  {
    AdvanceNoWrap(n, i);
    AdvanceAdd(n, i, j - i);
    AdvanceNoWrap(Advance(n, i), j - i);
  }

  /** One more increment past 2^31 - 1 gives -2^31. */
  lemma SuccessorWraps()
    ensures Successor(MaxInt) == MinInt
  {
  }

  /** One shared static `nextId`; every constructor that takes an id reads it and
      increments it. */
  class IdCounter {
    var nextId: int32

    /** The static initialiser `nextId = 1`. */
    constructor ()
      ensures nextId == 1
    {
      nextId := 1;
    }
  }
}
