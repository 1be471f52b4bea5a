/** Bit arithmetic on spill masks: the bit test `((mask >> i) & 1) != 0`, POPCOUNT,
    and the rank of a register among the spilled ones. */
module SpillMask {

  function Pow2(n: nat): nat
  {
    if n == 0 then 1 else 2 * Pow2(n - 1)
  }

  /** Bit `i` of `mask`, i.e. `((mask >> i) & 1) != 0`. */
  predicate Bit(mask: nat, i: nat)
  {
    if i == 0 then mask % 2 == 1 else Bit(mask / 2, i - 1)
  }

  /** POPCOUNT: the number of set bits of `mask`. */
  function PopCount(mask: nat): nat
  {
    if mask == 0 then 0 else mask % 2 + PopCount(mask / 2)
  }

  /** The number of set bits of `mask` below position `n`: when bit `n` is set,
      register `n` is the `CountBelow(mask, n)`-th spilled register, scanning upward from 0. */
  function CountBelow(mask: nat, n: nat): nat
  {
    if n == 0 then 0 else CountBelow(mask, n - 1) + (if Bit(mask, n - 1) then 1 else 0)
  }

  /** Counting the low `n + 1` bits is counting bit 0 and then the low `n` bits of `mask >> 1`. */
  lemma {:induction false} CountBelowShift(mask: nat, n: nat)
    ensures CountBelow(mask, n + 1) == mask % 2 + CountBelow(mask / 2, n)
  {
    if n > 0 {
      CountBelowShift(mask, n - 1);
    }
  }

  /** A mask narrower than `n` bits has all its set bits below `n`. */
  lemma {:induction false} CountBelowAll(mask: nat, n: nat)
    requires mask < Pow2(n)
    ensures CountBelow(mask, n) == PopCount(mask)
  {
    if n > 0 {
      CountBelowShift(mask, n - 1);
      CountBelowAll(mask / 2, n - 1);
    }
  }

  /** No prefix of the bits holds more set bits than the whole mask. */
  lemma {:induction false} CountBelowAtMostPopCount(mask: nat, n: nat)
    ensures CountBelow(mask, n) <= PopCount(mask)
  {
    if n > 0 {
      CountBelowShift(mask, n - 1);
      CountBelowAtMostPopCount(mask / 2, n - 1);
    }
  }

  /** The rank only grows while scanning upward. */
  lemma {:induction false} CountBelowMono(mask: nat, a: nat, b: nat)
    requires a <= b
    ensures CountBelow(mask, a) <= CountBelow(mask, b)
  {
    if a < b {
      CountBelowMono(mask, a, b - 1);
    }
  }

  /** A set bit below `b` strictly raises the rank at `b`: distinct spilled registers get
      distinct ranks, lower registers smaller ones. */
  lemma {:induction false} CountBelowStrict(mask: nat, i: nat, b: nat)
    requires i < b && Bit(mask, i)
    ensures CountBelow(mask, i) < CountBelow(mask, b)
  {
    CountBelowMono(mask, i + 1, b);
  }

  /** A mask narrower than `n` bits has no set bit at `n` or above. */
  lemma {:induction false} BitBelowWidth(mask: nat, n: nat, i: nat)
    requires mask < Pow2(n)
    ensures Bit(mask, i) ==> i < n
  {
    if n <= i {
      CountBelowAll(mask, n);
      CountBelowMono(mask, n, i);
      CountBelowAtMostPopCount(mask, i + 1);
    }
  }

  /** A mask with no set bits has no set bit anywhere. */
  lemma {:induction false} NoBitsWhenEmpty(mask: nat, i: nat)
    requires PopCount(mask) == 0
    ensures !Bit(mask, i)
  {
    CountBelowAtMostPopCount(mask, i + 1);
  }
}
