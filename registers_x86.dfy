/** Machine constants of the x86 register context: word width, register numbering,
    slot counts and the debug sentinels written into unpopulated registers. */
module X86Registers {

  /** A 32-bit machine word: `uintptr_t` and `uint32_t` on x86. */
  type Word = w: int | 0 <= w < 0x1_0000_0000

  /** Addresses are machine words. */
  type Addr = Word

  /** Number of distinct machine words. */
  const WordRange: int := 0x1_0000_0000

  /** `sizeof(intptr_t)` in bytes. */
  const WordSize: Word := 4

  /** General-purpose register numbers, in the x86 instruction encoding. */
  const EAX: nat := 0
  const ECX: nat := 1
  const EDX: nat := 2
  const EBX: nat := 3
  const ESP: nat := 4
  const EBP: nat := 5
  const ESI: nat := 6
  const EDI: nat := 7

  /** `kNumberOfCpuRegisters`. */
  const NumGprs: nat := 8

  /** XMM0 to XMM7. */
  const NumXmm: nat := 8

  /** `kNumberOfFloatRegisters`: every XMM register is handled as two 32-bit halves. */
  const NumFprWords: nat := 2 * NumXmm

  /** `kBadGprBase` and `kBadFprBase`: easy-to-spot values for registers nobody populated. */
  const BadGprBase: Word := 0xebad6070
  const BadFprBase: Word := 0xebad8070
}
