/** The scratch buffer `DoLongJump` hands to its machine-code tail, and the meaning that
    tail gives it: POPAD (Intel 64 and IA-32 Architectures Software Developer's Manual,
    Volume 2, "POPA/POPAD"), then `popl %esp`, then `ret`. */
module LongJump {
  import opened X86Registers

  /** The general-purpose buffer built from the context's register values: position
      `NumGprs - 1 - i` holds register `i`, and one extra top word holds the stack pointer
      one word below its value, where the return address will be stored. */
  function GprBuffer(values: seq<Word>): (buf: seq<Word>)
    requires |values| == NumGprs && values[ESP] >= WordSize
    ensures |buf| == NumGprs + 1
  {
    seq(NumGprs + 1, k requires 0 <= k <= NumGprs =>
      if k < NumGprs then values[NumGprs - 1 - k] else values[ESP] - WordSize)
  }

  /** The registers POPAD loads, in the order it pops them from increasing addresses;
      the word popped for ESP is discarded. */
  const PopadOrder: seq<nat> := [EDI, ESI, EBP, ESP, EBX, EDX, ECX, EAX]

  /** POPAD from `buf`, starting at the `k`-th pop, into register file `regs`. */
  function Popad(regs: seq<Word>, buf: seq<Word>, k: nat): (r: seq<Word>)
    requires |regs| == NumGprs && |buf| >= |PopadOrder| && k <= |PopadOrder|
    ensures |r| == NumGprs
    decreases |PopadOrder| - k
  {
    if k == |PopadOrder| then regs
    else
      var reg := PopadOrder[k];
      Popad(if reg == ESP then regs else regs[reg := buf[k]], buf, k + 1)
  }

  /** The register state after the transfer: the general-purpose registers and EIP. */
  datatype Cpu = Cpu(gpr: seq<Word>, eip: Word)

  /** ESP pointed at `buf`: POPAD, `popl %esp` loads the top word, and `ret` pops EIP
      from the memory it points at. `regs` is whatever the registers held before. */
  function Transfer(regs: seq<Word>, buf: seq<Word>, words: map<Addr, Word>): Cpu
    requires |regs| == NumGprs && |buf| == NumGprs + 1 && buf[NumGprs] in words
  {
    var sp := buf[NumGprs];
    Cpu(Popad(regs, buf, 0)[ESP := (sp + WordSize) % WordRange], words[sp])
  }

  /** POPAD's `k`-th pop writes register `NumGprs - 1 - k`. */
  lemma PopadOrderDescends(k: nat)
    requires k < |PopadOrder|
    ensures PopadOrder[k] == NumGprs - 1 - k
  {
    assert PopadOrder == [7, 6, 5, 4, 3, 2, 1, 0];
  }

  /** After the pops from the `k`-th on, register `r` other than ESP holds the word at
      position `NumGprs - 1 - r` if that pop was still to come, and its old value otherwise. */
  lemma {:induction false} PopadLoads(regs: seq<Word>, buf: seq<Word>, k: nat, r: nat)
    requires |regs| == NumGprs && |buf| >= |PopadOrder| && k <= |PopadOrder| && r < NumGprs
    ensures Popad(regs, buf, k)[r] ==
      if r != ESP && k <= NumGprs - 1 - r then buf[NumGprs - 1 - r] else regs[r]
    decreases |PopadOrder| - k
  {
    if k < |PopadOrder| {
      PopadOrderDescends(k);
      var reg := PopadOrder[k];
      PopadLoads(if reg == ESP then regs else regs[reg := buf[k]], buf, k + 1, r);
    }
  }

  /** The buffer layout and the transfer are inverse: whatever the registers held before,
      they end up holding the context's values (ESP included, since `ret` adds back the
      word subtracted), and EIP holds the word stored below the stack pointer. */
  lemma TransferRestoresContext(values: seq<Word>, regs: seq<Word>, words: map<Addr, Word>, eip: Word)
    requires |values| == NumGprs && values[ESP] >= WordSize && |regs| == NumGprs
    requires values[ESP] - WordSize in words && words[values[ESP] - WordSize] == eip
    ensures Transfer(regs, GprBuffer(values), words) == Cpu(values, eip)
  {
    var buf := GprBuffer(values);
    var cpu := Transfer(regs, buf, words);
    forall r | 0 <= r < NumGprs
      ensures cpu.gpr[r] == values[r]
    {
      PopadLoads(regs, buf, 0, r);
    }
  }
}
