/** Decoding a frame's spill masks into slot bindings (`X86Context::FillCalleeSaves`):
    which spill word each spilled register is found in. */
module CalleeSaves {
  import opened X86Registers
  import opened SpillMask
  import opened Slots

  /** What `FillCalleeSaves` learns from the stack visitor: the method's core and FP spill
      masks, its frame size, and the visitor's `CalleeSaveAddress(num, frame_size)`, whose
      definition is not part of this model. */
  datatype VisitedFrame = VisitedFrame(
    coreSpillMask: nat,
    fpSpillMask: nat,
    frameSizeInBytes: nat,
    calleeSaveAddress: (int, nat) -> Addr)

  /** `spill_count`: every core spill, including the return address. */
  function SpillCount(f: VisitedFrame): nat
  {
    PopCount(f.coreSpillMask)
  }

  /** `fp_spill_count`. */
  function FpSpillCount(f: VisitedFrame): nat
  {
    PopCount(f.fpSpillMask)
  }

  /** The callee-save index of general-purpose register `i` when its bit is set:
      the lowest spilled register is farthest away, and two slots are skipped. */
  function GprSpillIndex(f: VisitedFrame, i: nat): int
  {
    SpillCount(f) - 2 - CountBelow(f.coreSpillMask, i)
  }

  /** The callee-save index of the low half of XMM register `i` when its bit is set;
      the high half is at the index one below. */
  function FprSpillIndex(f: VisitedFrame, i: nat): int
  {
    SpillCount(f) + 2 * FpSpillCount(f) - 2 - 2 * CountBelow(f.fpSpillMask, i)
  }

  /** The slot `FillCalleeSaves` binds general-purpose register `i` to. */
  function GprBinding(f: VisitedFrame, i: nat): Slot
  {
    Stack(f.calleeSaveAddress(GprSpillIndex(f, i), f.frameSizeInBytes))
  }

  /** The slot `FillCalleeSaves` binds FP word `w` (half `w % 2` of XMM `w / 2`) to. */
  function FprBinding(f: VisitedFrame, w: nat): Slot
  {
    Stack(f.calleeSaveAddress(FprSpillIndex(f, w / 2) - w % 2, f.frameSizeInBytes))
  }

  /** The frame's core mask records a spill beyond the eight registers (the return address),
      so the register spills all have non-negative indices. */
  predicate CoreMaskCountsReturnAddress(f: VisitedFrame)
  {
    CountBelow(f.coreSpillMask, NumGprs) < SpillCount(f)
  }

  /** Lower-numbered registers are farther away: their callee-save indices are strictly
      larger, so distinct spilled registers never share a callee-save index. */
  lemma GprSpillOrder(f: VisitedFrame, i: nat, k: nat)
    requires i < k && Bit(f.coreSpillMask, i)
    ensures GprSpillIndex(f, i) > GprSpillIndex(f, k)
  {
    CountBelowStrict(f.coreSpillMask, i, k);
  }

  /** The general-purpose spills occupy indices 0 up to `spill_count - 2`. */
  lemma GprSpillIndexRange(f: VisitedFrame, i: nat)
    requires i < NumGprs && Bit(f.coreSpillMask, i)
    requires CoreMaskCountsReturnAddress(f)
    ensures 0 <= GprSpillIndex(f, i) <= SpillCount(f) - 2
  {
    CountBelowStrict(f.coreSpillMask, i, NumGprs);
  }

  /** The two halves of an XMM register are adjacent, and the pairs of two spilled XMM
      registers never overlap, the lower-numbered register's pair lying farther away. */
  lemma FprSpillOrder(f: VisitedFrame, i: nat, k: nat)
    requires i < k && Bit(f.fpSpillMask, i)
    ensures FprBinding(f, 2 * i) == Stack(f.calleeSaveAddress(FprSpillIndex(f, i), f.frameSizeInBytes))
    ensures FprBinding(f, 2 * i + 1) == Stack(f.calleeSaveAddress(FprSpillIndex(f, i) - 1, f.frameSizeInBytes))
    ensures FprSpillIndex(f, k) < FprSpillIndex(f, i) - 1
  {
    assert (2 * i) / 2 == i && (2 * i) % 2 == 0;
    assert (2 * i + 1) / 2 == i && (2 * i + 1) % 2 == 1;
    CountBelowStrict(f.fpSpillMask, i, k);
  }

  /** The FP halves occupy indices `spill_count - 1` up to `spill_count + 2*fp_spill_count - 2`,
      above every general-purpose spill. */
  lemma FprSpillIndexRange(f: VisitedFrame, i: nat)
    requires f.fpSpillMask < Pow2(NumXmm) && Bit(f.fpSpillMask, i)
    ensures SpillCount(f) - 1 <= FprSpillIndex(f, i) - 1
    ensures FprSpillIndex(f, i) <= SpillCount(f) + 2 * FpSpillCount(f) - 2
  {
    BitBelowWidth(f.fpSpillMask, NumXmm, i);
    CountBelowStrict(f.fpSpillMask, i, NumXmm);
    CountBelowAll(f.fpSpillMask, NumXmm);
  }

  /** No general-purpose register and no FP half bound by the same frame share a spill index. */
  lemma SpillRegionsDisjoint(f: VisitedFrame, i: nat, w: nat)
    requires i < NumGprs && Bit(f.coreSpillMask, i) && CoreMaskCountsReturnAddress(f)
    requires f.fpSpillMask < Pow2(NumXmm) && Bit(f.fpSpillMask, w / 2)
    ensures GprSpillIndex(f, i) < FprSpillIndex(f, w / 2) - w % 2
  {
    GprSpillIndexRange(f, i);
    FprSpillIndexRange(f, w / 2);
  }

  /** The largest callee-save index a frame's bindings can pass to the visitor; the
      smallest is -2. */
  function MaxSpillIndex(f: VisitedFrame): int
  {
    SpillCount(f) + 2 * FpSpillCount(f)
  }

  /** The visitor maps the distinct callee-save indices this frame can use to distinct
      spill words. */
  ghost predicate DistinctSpillWords(f: VisitedFrame)
  {
    forall n1: int, n2: int ::
      -2 <= n1 <= MaxSpillIndex(f) && -2 <= n2 <= MaxSpillIndex(f) && n1 != n2 ==>
        f.calleeSaveAddress(n1, f.frameSizeInBytes) != f.calleeSaveAddress(n2, f.frameSizeInBytes)
  }

  /** Every general-purpose binding uses an index the premise covers. */
  lemma GprSpillIndexBounded(f: VisitedFrame, i: nat)
    ensures -2 <= GprSpillIndex(f, i) <= MaxSpillIndex(f)
  {
    CountBelowAtMostPopCount(f.coreSpillMask, i);
  }

  /** Every FP-half binding of a spilled XMM register uses an index the premise covers. */
  lemma FprSpillIndexBounded(f: VisitedFrame, w: nat)
    requires Bit(f.fpSpillMask, w / 2)
    ensures -2 <= FprSpillIndex(f, w / 2) - w % 2 <= MaxSpillIndex(f)
  {
    CountBelowStrict(f.fpSpillMask, w / 2, w / 2 + 1);
    CountBelowAtMostPopCount(f.fpSpillMask, w / 2 + 1);
  }

  /** With distinct spill words, two spilled general-purpose registers are bound to different words. */
  lemma GprBindingsDistinct(f: VisitedFrame, i: nat, k: nat)
    requires DistinctSpillWords(f)
    requires i != k && Bit(f.coreSpillMask, i) && Bit(f.coreSpillMask, k)
    ensures GprBinding(f, i) != GprBinding(f, k)
  {
    GprSpillIndexBounded(f, i);
    GprSpillIndexBounded(f, k);
    if i < k {
      GprSpillOrder(f, i, k);
    } else {
      GprSpillOrder(f, k, i);
    }
  }

  /** With distinct spill words, two FP halves of spilled XMM registers are bound to different words. */
  lemma FprBindingsDistinct(f: VisitedFrame, w1: nat, w2: nat)
    requires DistinctSpillWords(f)
    requires w1 != w2 && Bit(f.fpSpillMask, w1 / 2) && Bit(f.fpSpillMask, w2 / 2)
    ensures FprBinding(f, w1) != FprBinding(f, w2)
  {
    FprSpillIndexBounded(f, w1);
    FprSpillIndexBounded(f, w2);
    if w1 / 2 < w2 / 2 {
      CountBelowStrict(f.fpSpillMask, w1 / 2, w2 / 2);
    } else if w2 / 2 < w1 / 2 {
      CountBelowStrict(f.fpSpillMask, w2 / 2, w1 / 2);
    }
  }

  /** With distinct spill words, no spilled general-purpose register shares a word with an FP
      half bound from the same frame. */
  lemma GprFprBindingsDistinct(f: VisitedFrame, i: nat, w: nat)
    requires DistinctSpillWords(f)
    requires i < NumGprs && Bit(f.coreSpillMask, i) && CoreMaskCountsReturnAddress(f)
    requires f.fpSpillMask < Pow2(NumXmm) && Bit(f.fpSpillMask, w / 2)
    ensures GprBinding(f, i) != FprBinding(f, w)
  {
    GprSpillIndexBounded(f, i);
    FprSpillIndexBounded(f, w);
    SpillRegionsDisjoint(f, i, w);
  }

  /** The visitor of a frame spilling the return address and XMM0, laying spill words out
      4 bytes apart from address 1000. */
  function SampleFrame(): VisitedFrame
  {
    VisitedFrame(256, 1, 64, (n: int, s: nat) => if -250 <= n <= 1000 then 1000 + 4 * n else 0)
  }

  /** The distinct-spill-words premise can be met. */
  lemma DistinctSpillWordsSatisfiable()
    ensures DistinctSpillWords(SampleFrame())
  {
    var f := SampleFrame();
    assert PopCount(256) == 1 by {
      assert PopCount(1) == 1;
      assert PopCount(2) == 1;
      assert PopCount(4) == 1;
      assert PopCount(8) == 1;
      assert PopCount(16) == 1;
      assert PopCount(32) == 1;
      assert PopCount(64) == 1;
      assert PopCount(128) == 1;
    }
    assert MaxSpillIndex(f) == 3;
  }
}
