/** Register slots: where a register's current value lives, reading and writing
    through a slot, and the fatal checks the setters perform. */
module Slots {
  import opened X86Registers

  /** A slot of the context. It never holds a value, only the place of one. */
  datatype Slot =
    | Unset             // nullptr: the register's location is not known yet
    | ZeroConst         // &gZero: the process-wide read-only zero
    | EspField          // &esp_: the context's own stack-pointer word
    | Stack(addr: Addr) // a spill word inside a walked frame

  /** The value of `gZero`. */
  const Zero: Word := 0

  /** A slot that points into memory names a word the memory holds. */
  predicate Resolvable(slot: Slot, words: map<Addr, Word>)
  {
    slot.Stack? ==> slot.addr in words
  }

  predicate AllResolvable(slots: seq<Slot>, words: map<Addr, Word>)
  {
    forall i :: 0 <= i < |slots| ==> Resolvable(slots[i], words)
  }

  /** `*slot`: the value read through a bound slot. */
  function Deref(slot: Slot, esp: Word, words: map<Addr, Word>): Word
    requires slot != Unset && Resolvable(slot, words)
  {
    match slot
    case ZeroConst => Zero
    case EspField => esp
    case Stack(a) => words[a]
  }

  /** The slots a write may go through: the stack-pointer field or a spill word. */
  predicate Writable(slot: Slot)
  {
    slot.EspField? || slot.Stack?
  }

  /** `*slot = value`: the new stack-pointer field and the new memory. Reading the same
      slot afterwards yields `value`. */
  function WriteThrough(slot: Slot, value: Word, esp: Word, words: map<Addr, Word>): (r: (Word, map<Addr, Word>))
    requires Writable(slot)
    ensures Resolvable(slot, r.1) && Deref(slot, r.0, r.1) == value
    ensures words.Keys <= r.1.Keys
  {
    if slot.EspField? then (value, words) else (esp, words[slot.addr := value])
  }

  /** A write through one slot leaves what every other slot reads unchanged; in particular
      the zero constant still reads 0. Memory holds one word per address, so this is the
      source's behaviour for word-aligned spill addresses. */
  lemma WriteThroughFrame(slot: Slot, value: Word, esp: Word, words: map<Addr, Word>, other: Slot)
    requires Writable(slot) && other != Unset && other != slot && Resolvable(other, words)
    ensures Resolvable(other, WriteThrough(slot, value, esp, words).1)
    ensures Deref(other, WriteThrough(slot, value, esp, words).0, WriteThrough(slot, value, esp, words).1)
         == Deref(other, esp, words)
  {
  }

  /** The value the long jump loads for one slot: the value read through it, or the
      debug sentinel when it is unset. */
  function Load(slot: Slot, sentinel: Word, esp: Word, words: map<Addr, Word>): Word
    requires Resolvable(slot, words)
  {
    if slot == Unset then sentinel else Deref(slot, esp, words)
  }

  /** `Load` over a whole slot array, slot `i` falling back to `base + i`. */
  function LoadAll(slots: seq<Slot>, base: Word, esp: Word, words: map<Addr, Word>): (v: seq<Word>)
    requires base + |slots| <= WordRange
    requires AllResolvable(slots, words)
    ensures |v| == |slots|
  {
    seq(|slots|, i requires 0 <= i < |slots| => Load(slots[i], base + i, esp, words))
  }

  /** Why a setter aborts the process. */
  datatype Fault = RegisterOutOfRange | ProtectedZeroSlot

  /** The outcome of `SetGPR` / `SetFPR`: the write happened, or a CHECK failed. */
  datatype Status = Written | Fatal(fault: Fault)

  /** The CHECKs a setter performs before writing through `slots[reg]`. */
  function WriteCheck(slots: seq<Slot>, reg: nat): Status
  {
    if reg >= |slots| then Fatal(RegisterOutOfRange)
    else if slots[reg] == ZeroConst then Fatal(ProtectedZeroSlot)
    else Written
  }

  /** A setter writes exactly when the index is in range and the slot is not the zero
      constant; a bound slot that passes the checks is one a write can go through. */
  lemma WriteCheckPasses(slots: seq<Slot>, reg: nat)
    ensures WriteCheck(slots, reg) == Written <==> reg < |slots| && slots[reg] != ZeroConst
    ensures WriteCheck(slots, reg) == Written && slots[reg] != Unset ==> Writable(slots[reg])
  {
  }
}
