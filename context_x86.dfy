/** `X86Context`: the register context of one unwind. Two fixed arrays of slots (one per
    general-purpose register, one per 32-bit half of an XMM register) and two words of its
    own, `esp_` and `eip_`. */
module ContextX86 {
  import opened X86Registers
  import opened SpillMask
  import opened Slots
  import opened CalleeSaves
  import opened LongJump

  /** The memory the slots point into: the stack words of the walked frames. */
  class Memory {
    var words: map<Addr, Word>

    constructor (words: map<Addr, Word>)
      ensures this.words == words
    {
      this.words := words;
    }
  }

  class X86Context {
    /** `gprs_`, indexed by register number. */
    var gprs: array<Slot>
    /** `fprs_`, word `2 * i + h` being half `h` of XMM register `i`. */
    var fprs: array<Slot>
    /** `esp_`: the stack pointer's value when it is not in a frame. */
    var esp: Word
    /** `eip_`: the instruction pointer to resume at. */
    var eip: Word

    /** The arrays have their fixed sizes, and an FP slot never points at `esp_`: it is
        unset, the zero constant or a spill word. */
    ghost predicate Valid()
      reads this, fprs
    {
      gprs.Length == NumGprs && fprs.Length == NumFprWords && gprs != fprs &&
      forall w :: 0 <= w < NumFprWords ==> !fprs[w].EspField?
    }

    /** The state `Reset` leaves: only ESP is bound, to `esp_`, and both scalars hold
        debug sentinels. */
    ghost predicate IsReset()
      requires Valid()
      reads this, gprs, fprs
    {
      (forall i :: 0 <= i < NumGprs ==> gprs[i] == if i == ESP then EspField else Unset) &&
      (forall w :: 0 <= w < NumFprWords ==> fprs[w] == Unset) &&
      esp == BadGprBase + ESP && eip == BadGprBase + NumGprs
    }

    /** A fresh context starts out reset. */
    constructor ()
      ensures Valid() && IsReset() && fresh(gprs) && fresh(fprs)
    {
      gprs := new Slot[NumGprs](_ => Unset);
      fprs := new Slot[NumFprWords](_ => Unset);
      esp, eip := 0, 0;
      new;
      Reset();
    }

    /** Clears every slot, binds ESP to `esp_` and installs the debug sentinels. The new
        state does not depend on the old one, so two calls leave what one call leaves. */
    method Reset()
      requires Valid()
      modifies this`esp, this`eip, gprs, fprs
      ensures Valid() && IsReset()
    {
      for i := 0 to NumGprs
        invariant forall k :: 0 <= k < i ==> gprs[k] == Unset
        modifies gprs
      {
        gprs[i] := Unset;
      }
      for i := 0 to NumFprWords
        invariant forall k :: 0 <= k < i ==> fprs[k] == Unset
        modifies fprs
      {
        fprs[i] := Unset;
      }
      gprs[ESP] := EspField;
      esp := BadGprBase + ESP;
      eip := BadGprBase + NumGprs;
    }

    /** Binds every register whose spill-mask bit is set to its spill word in `frame`
        and leaves every other slot as it was; no register value is read or written. */
    method FillCalleeSaves(frame: VisitedFrame)
      requires Valid()
      requires frame.fpSpillMask < Pow2(NumXmm)
      modifies gprs, fprs
      ensures Valid()
      ensures forall i :: 0 <= i < NumGprs ==>
        gprs[i] == if Bit(frame.coreSpillMask, i) then GprBinding(frame, i) else old(gprs[i])
      ensures forall w :: 0 <= w < NumFprWords ==>
        fprs[w] == if Bit(frame.fpSpillMask, w / 2) then FprBinding(frame, w) else old(fprs[w])
      ensures esp == old(esp) && eip == old(eip)
    {
      var spillCount := PopCount(frame.coreSpillMask);
      var fpSpillCount := PopCount(frame.fpSpillMask);
      BindCoreSpills(frame, spillCount);
      BindFpSpills(frame, spillCount, fpSpillCount);
    }

    /** The core half of `FillCalleeSaves`. */
    method BindCoreSpills(frame: VisitedFrame, spillCount: nat)
      requires Valid()
      requires spillCount == SpillCount(frame)
      modifies gprs
      ensures forall i :: 0 <= i < NumGprs ==>
        gprs[i] == if Bit(frame.coreSpillMask, i) then GprBinding(frame, i) else old(gprs[i])
    {
      if spillCount > 0 {
        var j: int := 2;  // skips the return address spill
        for i := 0 to NumGprs
          invariant j == 2 + CountBelow(frame.coreSpillMask, i)
          invariant forall r :: 0 <= r < NumGprs ==>
            gprs[r] == if r < i && Bit(frame.coreSpillMask, r) then GprBinding(frame, r) else old(gprs[r])
        {
          if Bit(frame.coreSpillMask, i) {
            gprs[i] := Stack(frame.calleeSaveAddress(spillCount - j, frame.frameSizeInBytes));
            j := j + 1;
          }
        }
      } else {
        forall i | 0 <= i < NumGprs
          ensures !Bit(frame.coreSpillMask, i)
        {
          NoBitsWhenEmpty(frame.coreSpillMask, i);
        }
      }
    }

    /** The FP half of `FillCalleeSaves`: each XMM register takes two adjacent words. */
    method BindFpSpills(frame: VisitedFrame, spillCount: nat, fpSpillCount: nat)
      requires Valid()
      requires frame.fpSpillMask < Pow2(NumXmm)
      requires spillCount == SpillCount(frame) && fpSpillCount == FpSpillCount(frame)
      modifies fprs
      ensures forall w :: 0 <= w < NumFprWords ==>
        fprs[w] == if Bit(frame.fpSpillMask, w / 2) then FprBinding(frame, w) else old(fprs[w])
    {
      if fpSpillCount > 0 {
        var j: int := 2;  // skips the return address spill
        var fpSpillSizeInWords := fpSpillCount * 2;
        for i := 0 to NumFprWords
          invariant j == 2 + 2 * CountBelow(frame.fpSpillMask, i)
          invariant forall w :: 0 <= w < NumFprWords ==>
            fprs[w] == if w / 2 < i && Bit(frame.fpSpillMask, w / 2) then FprBinding(frame, w) else old(fprs[w])
        {
          BitBelowWidth(frame.fpSpillMask, NumXmm, i);
          if Bit(frame.fpSpillMask, i) {
            fprs[2 * i] := Stack(frame.calleeSaveAddress(spillCount + fpSpillSizeInWords - j, frame.frameSizeInBytes));
            fprs[2 * i + 1] := Stack(frame.calleeSaveAddress(spillCount + fpSpillSizeInWords - j - 1, frame.frameSizeInBytes));
            j := j + 2;
          }
        }
      } else {
        forall w | 0 <= w < NumFprWords
          ensures !Bit(frame.fpSpillMask, w / 2)
        {
          NoBitsWhenEmpty(frame.fpSpillMask, w / 2);
        }
      }
    }

    /** The state after an arbitrary call: EAX and EDX read the protected zero, ECX, EBX and
        every FP half are unknown, and ESP, EBP, ESI and EDI keep their bindings. */
    method SmashCallerSaves()
      requires Valid()
      modifies gprs, fprs
      ensures Valid()
      ensures gprs[EAX] == ZeroConst && gprs[EDX] == ZeroConst
      ensures gprs[ECX] == Unset && gprs[EBX] == Unset
      ensures forall i :: ESP <= i < NumGprs ==> gprs[i] == old(gprs[i])
      ensures forall w :: 0 <= w < NumFprWords ==> fprs[w] == Unset
      ensures esp == old(esp) && eip == old(eip)
    {
      gprs[EAX] := ZeroConst;
      gprs[EDX] := ZeroConst;
      gprs[ECX] := Unset;
      gprs[EBX] := Unset;
      forall w | 0 <= w < fprs.Length {
        fprs[w] := Unset;
      }
    }

    /** Aborts when `reg` is out of range or its slot is the zero constant; otherwise writes
        `value` through the slot (into `esp_` for ESP) and changes nothing else. */
    method SetGPR(reg: nat, value: Word, mem: Memory) returns (status: Status)
      requires Valid()
      requires reg < NumGprs ==> gprs[reg] != Unset
      modifies this`esp, mem
      ensures Valid() && gprs[..] == old(gprs[..]) && fprs[..] == old(fprs[..]) && eip == old(eip)
      ensures status == WriteCheck(gprs[..], reg)
      ensures status.Written? ==> (esp, mem.words) == WriteThrough(gprs[reg], value, old(esp), old(mem.words))
      ensures status.Fatal? ==> esp == old(esp) && mem.words == old(mem.words)
    {
      if reg >= NumGprs {
        return Fatal(RegisterOutOfRange);
      }
      if gprs[reg] == ZeroConst {
        return Fatal(ProtectedZeroSlot);
      }
      if gprs[reg].EspField? {
        esp := value;
      } else {
        mem.words := mem.words[gprs[reg].addr := value];
      }
      status := Written;
    }

    /** Aborts when `reg` is out of range or its slot is the zero constant; otherwise writes
        `value` through `fprs[reg]` only and changes nothing else. */
    method SetFPR(reg: nat, value: Word, mem: Memory) returns (status: Status)
      requires Valid()
      requires reg < NumFprWords ==> fprs[reg] != Unset
      modifies mem
      ensures Valid() && gprs[..] == old(gprs[..]) && fprs[..] == old(fprs[..])
      ensures esp == old(esp) && eip == old(eip)
      ensures status == WriteCheck(fprs[..], reg)
      ensures status.Written? ==> fprs[reg].Stack? && (esp, mem.words) == WriteThrough(fprs[reg], value, esp, old(mem.words))
      ensures status.Fatal? ==> mem.words == old(mem.words)
    {
      if reg >= NumFprWords {
        return Fatal(RegisterOutOfRange);
      }
      if fprs[reg] == ZeroConst {
        return Fatal(ProtectedZeroSlot);
      }
      mem.words := mem.words[fprs[reg].addr := value];
      status := Written;
    }

    /** The part of `DoLongJump` before the machine-code transfer: the general-purpose
        buffer in POPAD order with the lowered stack pointer on top, the FP buffer in slot
        order, unset slots giving their debug sentinels, and `eip_` stored one word below
        the stack pointer's value. */
    method DoLongJump(mem: Memory) returns (gprBuf: array<Word>, fprBuf: array<Word>)
      requires Valid()
      requires AllResolvable(gprs[..], mem.words) && AllResolvable(fprs[..], mem.words)
      requires LoadAll(gprs[..], BadGprBase, esp, mem.words)[ESP] >= WordSize
      modifies mem
      ensures fresh(gprBuf) && fresh(fprBuf)
      ensures gprBuf[..] == GprBuffer(old(LoadAll(gprs[..], BadGprBase, esp, mem.words)))
      ensures fprBuf[..] == old(LoadAll(fprs[..], BadFprBase, esp, mem.words))
      ensures mem.words == old(mem.words)[gprBuf[NumGprs] := eip]
    {
      ghost var values := LoadAll(gprs[..], BadGprBase, esp, mem.words);
      ghost var fpValues := LoadAll(fprs[..], BadFprBase, esp, mem.words);
      gprBuf := new Word[NumGprs + 1];
      for i := 0 to NumGprs
        invariant forall k :: 0 <= k < i ==> gprBuf[NumGprs - 1 - k] == values[k]
        modifies gprBuf
      {
        assert Resolvable(gprs[..][i], mem.words);
        gprBuf[NumGprs - i - 1] := if gprs[i] != Unset then Deref(gprs[i], esp, mem.words) else BadGprBase + i;
      }
      fprBuf := new Word[NumFprWords];
      for i := 0 to NumFprWords
        invariant forall k :: 0 <= k < i ==> fprBuf[k] == fpValues[k]
        modifies fprBuf
      {
        assert Resolvable(fprs[..][i], mem.words);
        fprBuf[i] := if fprs[i] != Unset then Deref(fprs[i], esp, mem.words) else BadFprBase + i;
      }
      // The stack pointer one word below, so that `ret` pops `eip_`.
      var sp := gprBuf[NumGprs - ESP - 1] - WordSize;
      gprBuf[NumGprs] := sp;
      mem.words := mem.words[sp := eip];
      assert gprBuf[..] == GprBuffer(values);
    }
  }

  /** After `SmashCallerSaves`, EAX and EDX read zero and a write to either is refused. */
  method SmashedReturnRegistersAreProtected(ctx: X86Context, mem: Memory, value: Word)
    returns (eax: Status, edx: Status)
    requires ctx.Valid()
    modifies ctx.gprs, ctx.fprs, ctx`esp, mem
    ensures eax == Fatal(ProtectedZeroSlot) && edx == Fatal(ProtectedZeroSlot)
    ensures ctx.gprs[EAX] == ZeroConst && ctx.gprs[EDX] == ZeroConst
    ensures Deref(ctx.gprs[EAX], ctx.esp, mem.words) == 0 && Deref(ctx.gprs[EDX], ctx.esp, mem.words) == 0
    ensures mem.words == old(mem.words)
  {
    ctx.SmashCallerSaves();
    eax := ctx.SetGPR(EAX, value, mem);
    edx := ctx.SetGPR(EDX, value, mem);
  }

  /** End to end: whatever the registers held before, the transfer on the buffers
      `DoLongJump` builds leaves every register holding the context's value (ESP included)
      and EIP holding `eip_`. */
  method LongJumpLandsOnContext(ctx: X86Context, mem: Memory, regs: seq<Word>) returns (cpu: Cpu)
    requires ctx.Valid() && |regs| == NumGprs
    requires AllResolvable(ctx.gprs[..], mem.words) && AllResolvable(ctx.fprs[..], mem.words)
    requires LoadAll(ctx.gprs[..], BadGprBase, ctx.esp, mem.words)[ESP] >= WordSize
    modifies mem
    ensures cpu == Cpu(old(LoadAll(ctx.gprs[..], BadGprBase, ctx.esp, mem.words)), ctx.eip)
  {
    ghost var values := LoadAll(ctx.gprs[..], BadGprBase, ctx.esp, mem.words);
    var gprBuf, fprBuf := ctx.DoLongJump(mem);
    TransferRestoresContext(values, regs, mem.words, ctx.eip);
    cpu := Transfer(regs, gprBuf[..], mem.words);
  }
}
