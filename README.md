# x86 register context

A model of `X86Context`, the x86 register context a managed runtime uses while unwinding
the stack to deliver an exception or resume execution at another frame. The context keeps one
slot per general-purpose register (`gprs_`, eight of them) and one per 32-bit half of an XMM
register (`fprs_`, sixteen of them). A slot is never a value. It is the place where the
register's current value lives:

- unset (`nullptr`), meaning the location is not known yet;
- the process-wide read-only zero `gZero`;
- the context's own `esp_` word;
- a spill word inside one of the frames being walked.

The model covers the operations in `runtime/arch/x86/context_x86.cc`:

- `Reset` clears the slots and installs debug sentinels.
- `FillCalleeSaves` decodes a frame's core and FP spill masks into slot bindings. The
  lowest-numbered spilled register is farthest away, and an XMM register takes two adjacent words.
- `SmashCallerSaves` builds the state after an arbitrary call.
- `SetGPR` and `SetFPR` run their fatal checks and then write through a slot.
- `DoLongJump` is modelled up to the scratch buffers it hands to its machine-code tail. The
  model also gives the meaning that tail gives those buffers: POPAD (Intel 64 and IA-32
  Architectures Software Developer's Manual, Volume 2, "POPA/POPAD"), then `popl %esp` and
  `ret`. A lemma proves that the buffer layout restores every register and EIP.

Layout:

- `registers_x86.dfy` (module `X86Registers`): words, register numbers, slot counts and sentinels.
- `spill_mask.dfy` (`SpillMask`): the bit test, POPCOUNT, and a register's rank among the spilled ones.
- `slots.dfy` (`Slots`): the slot datatype, reading and writing through a slot, and the setters' checks.
- `callee_saves.dfy` (`CalleeSaves`): the spill index of every spilled register, and how those indices are ordered.
- `long_jump.dfy` (`LongJump`): the general-purpose buffer layout and the POPAD semantics.
- `context_x86.dfy` (`ContextX86`):
  - class `X86Context`, with the two slot arrays and the fields `esp` and `eip`;
  - class `Memory`, the stack words the slots point into.

Modelling choices:

- Words are 32-bit naturals. Register numbers follow the x86 encoding: EAX=0, ECX=1, EDX=2,
  EBX=3, ESP=4, EBP=5, ESI=6, EDI=7. There are 8 general-purpose slots and 16 FP words.
- `kBadGprBase = 0xebad6070` and `kBadFprBase = 0xebad8070` are the values of the runtime's
  `Context` base class. That header, `context_x86.h` and `utils.h` are not part of this model.
- `StackVisitor::CalleeSaveAddress(num, frame_size)` stays abstract. It is a function-valued
  field of `VisitedFrame`. A bound slot records the address that function returned.
- In `context_x86.cc` the index expressions (lines 52, 65 and 68) are `size_t` differences.
  They become `int` through `CalleeSaveAddress`'s parameter, which is declared in the visitor's
  header. A difference that wraps below zero therefore arrives as a negative `int`. The model
  computes the index as an `int` directly, so `FillCalleeSaves` needs no precondition for it. The lemmas prove it is non-negative when the core mask also counts the
  return-address spill.
- The C++ constructor (in the header) calls `Reset`. The Dafny constructor allocates the two
  arrays and calls `Reset`.
- A failing `CHECK` aborts the process. The setters model it as the outcome `Fatal(fault)`,
  with the state left unchanged.
- `SetGPR` and `SetFPR` do not check that a slot is bound: they dereference it at lines 90
  and 97 without a null check. "Slot bound" is therefore a precondition of both.
- `fprs_` only ever holds `nullptr`, `&gZero` or callee-save addresses. `X86Context.Valid()`
  records that no FP slot points at `esp_`, and every method keeps it.

## Model

| member | source | states |
|---|---|---|
| ContextX86.X86Context.Reset | runtime/arch/x86/context_x86.cc:29-40 | every general-purpose slot except ESP is unset, ESP is bound to `esp_`, every FP slot is unset, `esp_ = kBadGprBase + ESP`, `eip_ = kBadGprBase + kNumberOfCpuRegisters`; the new state does not depend on the old one, so a second call changes nothing |
| ContextX86.X86Context.FillCalleeSaves | runtime/arch/x86/context_x86.cc:42-75 | each register whose core-mask bit is set is bound to the spill word at its callee-save index, and each XMM register whose FP-mask bit is set has both halves bound; every other slot keeps its binding; `esp_`, `eip_` and memory are untouched |
| ContextX86.X86Context.BindCoreSpills | runtime/arch/x86/context_x86.cc:45-56 | the core loop: with `j` counting from 2, set bit `i` is bound to index `spill_count - j`, which is `GprSpillIndex`; clear bits and an empty mask leave the slots as they were |
| ContextX86.X86Context.BindFpSpills | runtime/arch/x86/context_x86.cc:57-74 | the FP loop over `kNumberOfFloatRegisters`: set bit `i` binds word `2i` to index `spill_count + 2*fp_spill_count - j` and word `2i+1` to the index below; the FP mask must be narrower than 8 bits so that `2i+1` is in bounds |
| ContextX86.X86Context.SmashCallerSaves | runtime/arch/x86/context_x86.cc:77-84 | EAX and EDX are bound to the zero constant, ECX and EBX are unset, every FP slot is unset, and the ESP, EBP, ESI and EDI bindings are unchanged |
| ContextX86.X86Context.SetGPR | runtime/arch/x86/context_x86.cc:86-91 | fatal when `reg >= kNumberOfCpuRegisters` or the slot is the zero constant; otherwise the value is written through the slot (into `esp_` for ESP) and no slot, other word or field changes |
| ContextX86.X86Context.SetFPR | runtime/arch/x86/context_x86.cc:93-98 | fatal when `reg >= kNumberOfFloatRegisters` or the slot is the zero constant; otherwise the value is written into the spill word `fprs_[reg]` points at, and no slot, other word, `esp_` or `eip_` changes |
| ContextX86.X86Context.DoLongJump | runtime/arch/x86/context_x86.cc:100-115 | the general-purpose buffer is `GprBuffer` of the loaded values (register `i` at position `N-1-i`, `kBadGprBase + i` when unset, and the ESP value minus one word on top); FP word `i` holds its value or `kBadFprBase + i`; memory changes only at that top address, which receives `eip_` |
| ContextX86.SmashedReturnRegistersAreProtected | runtime/arch/x86/context_x86.cc:77-91 | after `SmashCallerSaves`, EAX and EDX read 0, `SetGPR` on either fails with the protected-zero fault, and memory is unchanged |
| Slots.WriteThrough | runtime/arch/x86/context_x86.cc:90 | after a write through a slot, reading that slot yields the written value, and the written word is added to memory if it was not there already |
| Slots.WriteThroughFrame | runtime/arch/x86/context_x86.cc:86-98 | a write through one slot leaves the value of every other bound slot unchanged, including the zero constant, which still reads 0 |
| Slots.WriteCheckPasses | runtime/arch/x86/context_x86.cc:87-89 | a setter writes if and only if the index is in range and the slot is not `&gZero`; a bound slot that passes the checks is `esp_` or a spill word |
| SpillMask.CountBelowShift | runtime/arch/x86/context_x86.cc:51 | counting the low `n+1` bits is bit 0 plus the low `n` bits of `mask >> 1` |
| SpillMask.CountBelowAll | runtime/arch/x86/context_x86.cc:46 | for a mask narrower than `n` bits, the rank at `n` is POPCOUNT of the whole mask |
| SpillMask.CountBelowAtMostPopCount | runtime/arch/x86/context_x86.cc:45 | no prefix of a mask has more set bits than POPCOUNT of the mask |
| SpillMask.CountBelowMono | runtime/arch/x86/context_x86.cc:53 | the counter `j` never decreases while the scan moves upward |
| SpillMask.CountBelowStrict | runtime/arch/x86/context_x86.cc:51-53 | a set bit below `b` makes the rank at `b` strictly larger |
| SpillMask.BitBelowWidth | runtime/arch/x86/context_x86.cc:61-62 | a mask narrower than `n` bits has no set bit at `n` or above |
| SpillMask.NoBitsWhenEmpty | runtime/arch/x86/context_x86.cc:47 | when POPCOUNT is 0 no bit is set, so skipping the loop leaves the same slots as running it |
| CalleeSaves.GprSpillOrder | runtime/arch/x86/context_x86.cc:48-53 | a lower-numbered spilled register gets a strictly larger callee-save index, so distinct registers never share a callee-save index |
| CalleeSaves.GprSpillIndexRange | runtime/arch/x86/context_x86.cc:45-52 | when the core mask also counts the return address, every register spill index lies between 0 and `spill_count - 2` |
| CalleeSaves.FprSpillOrder | runtime/arch/x86/context_x86.cc:57-71 | the two halves of an XMM register are bound to adjacent indices, and the index pairs of two spilled XMM registers never overlap |
| CalleeSaves.FprSpillIndexRange | runtime/arch/x86/context_x86.cc:57-69 | the FP halves lie between `spill_count - 1` and `spill_count + 2*fp_spill_count - 2` |
| CalleeSaves.SpillRegionsDisjoint | runtime/arch/x86/context_x86.cc:45-69 | no general-purpose register and no FP half bound from one frame share a callee-save index |
| CalleeSaves.GprBindingsDistinct | runtime/arch/x86/context_x86.cc:50-54 | when the visitor maps the distinct callee-save indices the frame can use (-2 to `spill_count + 2*fp_spill_count`) to distinct words, two spilled general-purpose registers are bound to different spill words |
| CalleeSaves.FprBindingsDistinct | runtime/arch/x86/context_x86.cc:61-72 | under the same premise, any two FP halves bound from one frame are bound to different spill words |
| CalleeSaves.GprFprBindingsDistinct | runtime/arch/x86/context_x86.cc:45-72 | under the same premise, and when the core mask also counts the return address, no general-purpose register shares a spill word with an FP half |
| LongJump.PopadLoads | runtime/arch/x86/context_x86.cc:105-107 | popping the reversed buffer puts position `N-1-r` into register `r` for every register except ESP |
| ContextX86.LongJumpLandsOnContext | runtime/arch/x86/context_x86.cc:100-129 | for any prior register file, POPAD, `popl %esp` and `ret` on the buffers `DoLongJump` builds leave every register holding the value the context reads for it (ESP included) and EIP holding `eip_` |
| CalleeSaves.GprSpillIndexBounded | runtime/arch/x86/context_x86.cc:45-52 | every general-purpose binding's callee-save index lies between -2 and `spill_count + 2*fp_spill_count` |
| CalleeSaves.FprSpillIndexBounded | runtime/arch/x86/context_x86.cc:57-69 | every FP-half binding's callee-save index lies in the same range |
| CalleeSaves.DistinctSpillWordsSatisfiable | runtime/arch/x86/context_x86.cc:52-69 | the distinct-spill-words premise of the three `*BindingsDistinct` lemmas is met by a visitor of a frame spilling the return address and XMM0 whose spill words lie 4 bytes apart |
| LongJump.TransferRestoresContext | runtime/arch/x86/context_x86.cc:102-115 | the buffer layout undoes the transfer: after POPAD, `popl %esp` and `ret`, every register holds the context's value (ESP included), and EIP holds the word stored below the stack pointer |

## Left out

- The inline assembly and the control transfer (runtime/arch/x86/context_x86.cc:116-132). They
  are not modelled as code. `LongJump.Transfer` describes only the register-loading meaning of
  POPAD, `popl %esp` and `ret`. The `movsd` loads of XMM0-XMM7 from the FP buffer are not modelled.
- `UNIMPLEMENTED(FATAL)` and `UNREACHABLE()`: build-configuration abort paths with no state to model.
- The `DCHECK(IsAccessibleGPR/FPR)` debug checks. Their definitions are in the header, which is
  not part of this model.
- `StackVisitor::GetMethod`, `ArtMethod::GetQuickFrameInfo` and `QuickMethodFrameInfo` are
  external. Their results (the two masks and the frame size) are fields of `VisitedFrame`.
- `StackVisitor::CalleeSaveAddress` is external. It is the abstract field `calleeSaveAddress`.
- `POPCOUNT` from `utils.h` is replaced by `SpillMask.PopCount`.
- Header-only members such as `SetSP`, `SetPC`, `GetGPR` and the constructor body. They are
  not in this file.
- Pointer casts, `volatile`, and the `uintptr_t`/`uint32_t` mixing in `SetFPR`. On x86 both
  types are 32 bits wide, so both are `Word`.
- ContextX86.X86Context.DoLongJump: requires the stack pointer's value to be at least one
  word. It does not model the unsigned wrap-around of `esp - sizeof(intptr_t)`.
- ContextX86.X86Context.DoLongJump: requires every bound slot to name a word the memory
  holds. A dangling slot would be undefined behaviour in the source.
- Memory is modelled as one independent 32-bit word per address. Accesses less than four
  bytes apart overlap in the source and not in the model. `Slots.WriteThroughFrame` ("every
  other slot reads the same") and `ContextX86.X86Context.DoLongJump` ("memory changes only at
  the top address") hold for the source only when the addresses involved are word-aligned,
  as callee-save addresses and the stack pointer are.
- ContextX86.X86Context.SetGPR: requires the slot of an in-range register to be bound. The
  source dereferences `nullptr` there, and the model does not capture that crash.
- ContextX86.X86Context.SetFPR: the same precondition as `SetGPR`, for the same reason.
- ContextX86.X86Context.FillCalleeSaves: requires the FP mask to be narrower than 8 bits. A
  wider mask makes the source write `fprs_[2*i+1]` out of bounds.
- ContextX86.X86Context.FillCalleeSaves: the model splits the two spill loops into
  `BindCoreSpills` and `BindFpSpills`, so each loop is verified on its own. The behaviour is
  the same.
