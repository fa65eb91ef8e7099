/**
  What the architected state does, in the numbers of the manual (DDI 0100, sections A2.3 to A2.6 and A4.1.39): the bytes
  that MSR writes, the rotation of its immediate, the registers that modes share, jumps, and the table of exceptions.
*/
module ArmLaws {
  import opened ArmState
  import opened BankedRegisters
  import opened NestedExceptions

  /** Bits 16 to 19 of the instruction say which bytes may be written. In CPSR, bit 5 never is, and in user mode the
      low byte never is. */
  lemma MaskBytes(instr: bv32, cpsr: bv32)
    ensures var mask := WritableMask(instr, cpsr);
            && mask & 0xFF00_0000 == (if instr & 0x8_0000 != 0 then 0xFF00_0000 else 0)
            && mask & 0xFF_0000 == (if instr & 0x4_0000 != 0 then 0xFF_0000 else 0)
            && mask & 0xFF00 == (if instr & 0x2_0000 != 0 then 0xFF00 else 0)
            && mask & 0xFF == if instr & 0x1_0000 == 0 || cpsr & 0x1F == 0x10 then 0
                              else if instr & 0x40_0000 == 0 then 0xDF else 0xFF
  {
    hide ToSaved, Mode;
    FieldBytes(instr);
    assert ToSaved(instr) == (instr & 0x40_0000 != 0) by { ToSavedIs(instr); }
    assert Mode(cpsr) == cpsr & 0x1F by { ModeIs(cpsr); }
  }

  lemma ToSavedIs(instr: bv32)
    ensures ToSaved(instr) == (instr & 0x40_0000 != 0)
  {
  }

  lemma ModeIs(psr: bv32)
    ensures Mode(psr) == psr & 0x1F
  {
  }

  lemma FieldBytes(instr: bv32)
    ensures FieldMask(instr) & 0xFF00_0000 == (if instr & 0x8_0000 != 0 then 0xFF00_0000 else 0)
    ensures FieldMask(instr) & 0xFF_0000 == (if instr & 0x4_0000 != 0 then 0xFF_0000 else 0)
    ensures FieldMask(instr) & 0xFF00 == (if instr & 0x2_0000 != 0 then 0xFF00 else 0)
    ensures FieldMask(instr) & 0xFF == if instr & 0x1_0000 != 0 then 0xFF else 0
  {
  }

  lemma MergedByte(psr: bv32, mask: bv32, val: bv32, byte: bv32)
    requires byte & 0x10 == 0
    ensures mask & byte == byte ==> Merged(psr, mask, val) & byte == val & byte
    ensures mask & byte == 0 ==> Merged(psr, mask, val) & byte == psr & byte
  {
  }

  lemma MergedLow(psr: bv32, mask: bv32, val: bv32)
    ensures mask & 0xFF == 0 ==> Merged(psr, mask, val) & 0xFF == psr & 0xFF
    ensures mask & 0xFF == 0xFF ==> Merged(psr, mask, val) & 0xFF == (val | 0x10) & 0xFF
    ensures mask & 0xFF == 0xDF ==> Merged(psr, mask, val) & 0xFF == (val & 0xCF) | 0x10 | (psr & 0x20)
  {
  }

  /** Bit 22 of the instruction clear: MSR writes CPSR and nothing else. Bits 16 to 19 say which bytes. In the low
      byte bit 4 is forced and bit 5 stays, and user mode does not write it at all. */
  lemma MsrWritesStatus(a: Arch, instr: bv32, val: bv32)
    requires a.Valid() && instr & 0x40_0000 == 0
    ensures var r := StatusWritten(a, instr, val);
            && r == a.(cpsr := r.cpsr)
            && r.cpsr & 0xFF00_0000 == (if instr & 0x8_0000 != 0 then val else a.cpsr) & 0xFF00_0000
            && r.cpsr & 0xFF_0000 == (if instr & 0x4_0000 != 0 then val else a.cpsr) & 0xFF_0000
            && r.cpsr & 0xFF00 == (if instr & 0x2_0000 != 0 then val else a.cpsr) & 0xFF00
            && r.cpsr & 0xFF == if instr & 0x1_0000 != 0 && a.cpsr & 0x1F != 0x10
                                then (val & 0xCF) | 0x10 | (a.cpsr & 0x20) else a.cpsr & 0xFF
  {
    hide FieldMask, WritableMask, Merged, Mode, SpsrBank, ToSaved;
    ToSavedIs(instr);
    MaskBytes(instr, a.cpsr);
    AllBytes(a.cpsr, WritableMask(instr, a.cpsr), val);
  }

  lemma AllBytes(psr: bv32, mask: bv32, val: bv32)
    ensures var m := Merged(psr, mask, val);
            && (mask & 0xFF00_0000 == 0xFF00_0000 ==> m & 0xFF00_0000 == val & 0xFF00_0000)
            && (mask & 0xFF00_0000 == 0 ==> m & 0xFF00_0000 == psr & 0xFF00_0000)
            && (mask & 0xFF_0000 == 0xFF_0000 ==> m & 0xFF_0000 == val & 0xFF_0000)
            && (mask & 0xFF_0000 == 0 ==> m & 0xFF_0000 == psr & 0xFF_0000)
            && (mask & 0xFF00 == 0xFF00 ==> m & 0xFF00 == val & 0xFF00)
            && (mask & 0xFF00 == 0 ==> m & 0xFF00 == psr & 0xFF00)
            && (mask & 0xFF == 0 ==> m & 0xFF == psr & 0xFF)
            && (mask & 0xFF == 0xFF ==> m & 0xFF == (val | 0x10) & 0xFF)
            && (mask & 0xFF == 0xDF ==> m & 0xFF == (val & 0xCF) | 0x10 | (psr & 0x20))
  {
    hide Merged;
    MergedByte(psr, mask, val, 0xFF00_0000);
    MergedByte(psr, mask, val, 0xFF_0000);
    MergedByte(psr, mask, val, 0xFF00);
    MergedLow(psr, mask, val);
  }

  /** Byte by byte, what bits 16 to 19 of the instruction make of a saved status. */
  predicate SavedWritten(psr: bv32, now: bv32, instr: bv32, val: bv32) {
    && now & 0xFF00_0000 == (if instr & 0x8_0000 != 0 then val else psr) & 0xFF00_0000
    && now & 0xFF_0000 == (if instr & 0x4_0000 != 0 then val else psr) & 0xFF_0000
    && now & 0xFF00 == (if instr & 0x2_0000 != 0 then val else psr) & 0xFF00
    && now & 0xFF == (if instr & 0x1_0000 != 0 then val | 0x10 else psr) & 0xFF
  }

  /** Bit 22 set: MSR writes the saved status of the mode, where there is one, and nothing else. */
  lemma MsrWritesSaved(a: Arch, instr: bv32, val: bv32)
    requires a.Valid() && instr & 0x40_0000 != 0
    ensures var r, b := StatusWritten(a, instr, val), SavedBank(a.cpsr & 0x1F);
            && (b == Usr ==> r == a)
            && (b != Usr ==> r == a.(spsr := a.spsr[b := r.spsr[b]]) && SavedWritten(a.spsr[b], r.spsr[b], instr, val))
  {
    hide FieldMask, WritableMask, Merged, SpsrBank, SavedBank, ToSaved, Mode, SavedWritten;
    ToSavedIs(instr);
    SavedBankIs(a.cpsr);
    var b := SavedBank(a.cpsr & 0x1F);
    if b != Usr {
      SavedBytes(a.cpsr, a.spsr[b], instr, val);
      assert StatusWritten(a, instr, val) == a.(spsr := a.spsr[b := Merged(a.spsr[b], WritableMask(instr, a.cpsr), val)]);
    }
  }

  lemma SavedBytes(cpsr: bv32, psr: bv32, instr: bv32, val: bv32)
    requires instr & 0x40_0000 != 0 && cpsr & 0x1F != 0x10
    ensures SavedWritten(psr, Merged(psr, WritableMask(instr, cpsr), val), instr, val)
  {
    hide FieldMask, WritableMask, Merged, Mode;
    MaskBytes(instr, cpsr);
    AllBytes(psr, WritableMask(instr, cpsr), val);
  }

  lemma SavedBankIs(cpsr: bv32)
    ensures SpsrBank(Mode(cpsr)) == SavedBank(cpsr & 0x1F)
    ensures SavedBank(cpsr & 0x1F) != Usr ==> cpsr & 0x1F != 0x10
  {
  }

  /** The modes with a saved status, the reserved ones next to Abort and Undefined included. */
  function SavedBank(mode: bv32): Bank {
    match mode
    case 0x11 => Fiq
    case 0x12 => Irq
    case 0x13 => Svc
    case 0x14 => Abt
    case 0x15 => Abt
    case 0x16 => Abt
    case 0x17 => Abt
    case 0x18 => Und
    case 0x19 => Und
    case 0x1A => Und
    case 0x1B => Und
    case _ => Usr
  }

  /** Rotation to the right: the low `count` bits go to the top, the others to the bottom. */
  lemma RotationMovesBits(x: bv32, count: bv32)
    requires 0 < count < 32
    ensures Rotated(x, count) >> (32 - count) == x & !(0xFFFF_FFFF << count)
    ensures Rotated(x, count) & (0xFFFF_FFFF >> count) == x >> count
  {
  }

  lemma RotationByNothing(x: bv32)
    ensures Rotated(x, 0) == x
  {
  }

  /** The immediate of MSR: the rotation is twice the number in bits 8 to 11, so it is less than a full turn. */
  lemma ImmediateRotation(instr: bv32)
    ensures (instr >> 7) & 0x1E == ((instr >> 8) & 0xF) << 1 && (instr >> 7) & 0x1E < 32
  {
  }

  // ----- exceptions -----

  lemma VectorLands(sys: System, offset: bv32, cpsr: bv32)
    requires sys.exceptionBase & 0xFFF == 0 && IsVector(offset)
    ensures var v := sys.Vector(offset); !ToThumb(v) && PcAt(v) == Plus(v, 4)
    ensures cpsr & 0x20 == 0 ==> WithThumb(cpsr, false) == cpsr
  {
    hide Plus, ToThumb, Target, WithThumb, System.Vector, IsVector;
    VectorIsAligned(sys, offset);
    ArmStays(cpsr);
  }

  lemma VectorIsAligned(sys: System, offset: bv32)
    requires sys.exceptionBase & 0xFFF == 0 && IsVector(offset)
    ensures !ToThumb(sys.Vector(offset)) && Target(sys.Vector(offset)) == sys.Vector(offset)
  {
  }

  lemma ArmStays(cpsr: bv32)
    ensures cpsr & 0x20 == 0 ==> WithThumb(cpsr, false) == cpsr
  {
  }

  /** Where privileged code may be fetched from the vectors. */
  predicate VectorsReachable(sys: System) {
    sys.exceptionBase & 0xFFF == 0 && (sys.num != 0 || sys.privExec(sys.exceptionBase >> 12))
  }

  lemma CanFetchVectors(sys: System, k: Kind)
    requires VectorsReachable(sys)
    ensures sys.VectorsAligned() && sys.CanFetch(HandlerMode(k), sys.exceptionBase) && sys.CanFetch(0x17, sys.exceptionBase)
  {
  }

  /** The low six bits are cleared, and the mode set with bit 4 and in ARM state. */
  predicate EntryBits(clear: bv32, set_: bv32, mode: bv32) {
    clear & 0x3F == 0x3F && set_ & 0x30 == 0x10 && set_ & 0x1F == mode
  }

  lemma StatusBits(psr: bv32, clear: bv32, set_: bv32, mode: bv32)
    requires EntryBits(clear, set_, mode)
    ensures clear & 0x1F == 0x1F && set_ & 0x10 != 0 && Mode(set_) == mode && Switched(psr, clear, set_) & 0x20 == 0
  {
  }

  /** An entry, with the vector given as a number. */
  lemma EntryNumbers(sys: System, a: Arch, k: Kind, clear: bv32, set_: bv32, lr: bv32, offset: bv32)
    requires a.Valid() && VectorsReachable(sys) && IsVector(offset) && EntryBits(clear, set_, HandlerMode(k))
    ensures var entered := Enter(a, clear, set_, BankFor(k), lr);
            Jump(sys, entered, sys.Vector(offset)) == Land(entered, sys.Vector(offset))
            == entered.(pc := Plus(sys.Vector(offset), 4))
  {
    hide Plus, Jump, Mode, HandlerMode, BankFor, IsVector, WithThumb, ToThumb, PcAt, RegFile.With, System.VectorsAligned,
      System.CanFetch, System.Vector, Switched, Boundary, VectorsReachable, EntryBits;
    assert sys.exceptionBase & 0xFFF == 0 by { VectorsStart(sys); }
    CanFetchVectors(sys, k);
    StatusBits(a.cpsr, clear, set_, HandlerMode(k));
    Arrives(sys, a, k, clear, set_, lr, offset);
    VectorLands(sys, offset, Switched(a.cpsr, clear, set_));
  }

  lemma VectorsStart(sys: System)
    requires VectorsReachable(sys)
    ensures sys.exceptionBase & 0xFFF == 0
  {
  }

  lemma SwitchedIs(psr: bv32)
    ensures Switched(psr, 0xBF, 0x93) == (psr & 0xFFFF_FF40) | 0x93
    ensures Switched(psr, 0xBF, 0x9B) == (psr & 0xFFFF_FF40) | 0x9B
    ensures Switched(psr, 0xBF, 0x97) == (psr & 0xFFFF_FF40) | 0x97
    ensures Switched(psr, 0xFF, 0xD2) == (psr & 0xFFFF_FF00) | 0xD2
  {
  }

  /** What moves the program counter by one distance in ARM state and another in THUMB state. */
  lemma MovedIs(pc: bv32, psr: bv32, arm: bv32, thumb: bv32)
    ensures Moved(pc, psr, arm, thumb) == if psr & 0x20 != 0 then Plus(pc, thumb) else Plus(pc, arm)
  {
    hide Plus;
  }

  /** SWI: supervisor mode, vector 0x08, the link is the instruction after it (`pc` is two ahead of it). */
  lemma SoftwareInterruptIs(sys: System, a: Arch)
    requires a.Valid() && VectorsReachable(sys)
    ensures Taken(sys, a, SoftwareInterrupt) ==
            Arch(a.file.With(Svc, 14, if a.cpsr & 0x20 != 0 then Plus(a.pc, 0xFFFF_FFFE) else Plus(a.pc, 0xFFFF_FFFC)),
                 a.spsr[Svc := a.cpsr], (a.cpsr & 0xFFFF_FF40) | 0x93, Plus(sys.Vector(0x08), 4))
  {
    hide Plus, Jump, Land, Moved, RegFile.With, System.Vector, Switched;
    SwitchedIs(a.cpsr);
    MovedIs(a.pc, a.cpsr, 0xFFFF_FFFC, 0xFFFF_FFFE);
    EntryNumbers(sys, a, SoftwareInterrupt, 0xBF, 0x93, Moved(a.pc, a.cpsr, 0xFFFF_FFFC, 0xFFFF_FFFE), 0x08);
  }

  /** Undefined instruction: undefined mode, vector 0x04, the link is the instruction after it. */
  lemma UndefinedIs(sys: System, a: Arch)
    requires a.Valid() && VectorsReachable(sys)
    ensures Taken(sys, a, Undefined) ==
            Arch(a.file.With(Und, 14, if a.cpsr & 0x20 != 0 then Plus(a.pc, 0xFFFF_FFFE) else Plus(a.pc, 0xFFFF_FFFC)),
                 a.spsr[Und := a.cpsr], (a.cpsr & 0xFFFF_FF40) | 0x9B, Plus(sys.Vector(0x04), 4))
  {
    hide Plus, Jump, Land, Moved, RegFile.With, System.Vector, Switched;
    SwitchedIs(a.cpsr);
    MovedIs(a.pc, a.cpsr, 0xFFFF_FFFC, 0xFFFF_FFFE);
    EntryNumbers(sys, a, Undefined, 0xBF, 0x9B, Moved(a.pc, a.cpsr, 0xFFFF_FFFC, 0xFFFF_FFFE), 0x04);
  }

  /** Data abort: abort mode, vector 0x10, the link is eight bytes after the instruction. */
  lemma DataAbortIs(sys: System, a: Arch)
    requires a.Valid() && VectorsReachable(sys)
    ensures Taken(sys, a, DataAbt) ==
            Arch(a.file.With(Abt, 14, if a.cpsr & 0x20 != 0 then Plus(a.pc, 4) else Plus(a.pc, 0)),
                 a.spsr[Abt := a.cpsr], (a.cpsr & 0xFFFF_FF40) | 0x97, Plus(sys.Vector(0x10), 4))
  {
    hide Plus, Jump, Land, Moved, RegFile.With, System.Vector, Switched;
    SwitchedIs(a.cpsr);
    MovedIs(a.pc, a.cpsr, 0, 4);
    EntryNumbers(sys, a, DataAbt, 0xBF, 0x97, Moved(a.pc, a.cpsr, 0, 4), 0x10);
  }

  lemma AbortFetches(sys: System, cpsr: bv32)
    requires VectorsReachable(sys)
    ensures sys.CanFetch(Switched(cpsr, 0xBF, 0x97), sys.exceptionBase)
  {
    hide Switched, Page;
    CanFetchVectors(sys, DataAbt);
    SwitchedMode(cpsr, 0xBF, 0x97);
  }

  /** Prefetch abort: abort mode, vector 0x0C. */
  lemma PrefetchAbortIs(sys: System, a: Arch)
    requires a.Valid() && VectorsReachable(sys)
    ensures PrefetchAborted(sys, a) ==
            Arch(a.file.With(Abt, 14, if a.cpsr & 0x20 != 0 then Plus(a.pc, 2) else Plus(a.pc, 0)),
                 a.spsr[Abt := a.cpsr], (a.cpsr & 0xFFFF_FF40) | 0x97, Plus(sys.Vector(0x0C), 4))
  {
    hide Plus, Jump, Land, Moved, RegFile.With, System.Vector, System.CanFetch, Switched;
    SwitchedIs(a.cpsr);
    MovedIs(a.pc, a.cpsr, 0, 2);
    EntryNumbers(sys, a, DataAbt, 0xBF, 0x97, Moved(a.pc, a.cpsr, 0, 2), 0x0C);
    AbortFetches(sys, a.cpsr);
  }

  /** Interrupt: masked by bit 7; else IRQ mode with both interrupts masked, vector 0x18, the link is four bytes
      after the instruction to return to. */
  lemma InterruptIs(sys: System, a: Arch)
    requires a.Valid() && VectorsReachable(sys)
    ensures Taken(sys, a, Interrupt) ==
            if a.cpsr & 0x80 != 0 then a
            else Arch(a.file.With(Irq, 14, if a.cpsr & 0x20 != 0 then Plus(a.pc, 2) else Plus(a.pc, 0)),
                      a.spsr[Irq := a.cpsr], (a.cpsr & 0xFFFF_FF00) | 0xD2, Plus(sys.Vector(0x18), 4))
  {
    hide Plus, Jump, Land, Moved, RegFile.With, System.Vector, Switched;
    SwitchedIs(a.cpsr);
    MovedIs(a.pc, a.cpsr, 0, 2);
    EntryNumbers(sys, a, Interrupt, 0xFF, 0xD2, Moved(a.pc, a.cpsr, 0, 2), 0x18);
  }

  /** The flags that an instruction sets are the top four bits. */
  lemma FlagsAreTop(psr: bv32, flags: bv4)
    ensures WithFlags(psr, flags) >> 28 == flags as bv32 && WithFlags(psr, flags) & 0x0FFF_FFFF == psr & 0x0FFF_FFFF
  {
  }

  /** A jump: bit 0 of the address selects the state; the program counter is one instruction ahead. */
  lemma JumpIs(sys: System, a: Arch, addr: bv32)
    requires a.Valid() && (sys.num != 0 || forall page :: sys.userExec(page) && sys.privExec(page))
    ensures Jump(sys, a, addr) ==
            if addr & 1 != 0 then a.(pc := Plus(addr & 0xFFFF_FFFE, 2), cpsr := a.cpsr | 0x20)
            else a.(pc := Plus(addr & 0xFFFF_FFFC, 4), cpsr := a.cpsr & 0xFFFF_FFDF)
  {
    hide Plus, Target, ToThumb, WithThumb, Page, Mode;
    JumpBits(addr, a.cpsr);
  }

  lemma JumpBits(addr: bv32, psr: bv32)
    ensures ToThumb(addr) == (addr & 1 != 0)
    ensures Target(addr) == if addr & 1 != 0 then addr & 0xFFFF_FFFE else addr & 0xFFFF_FFFC
    ensures WithThumb(psr, true) == psr | 0x20 && WithThumb(psr, false) == psr & 0xFFFF_FFDF
  {
  }

  // ----- registers -----

  /** Modes that have registers 13 and 14 of their own; the other ones share those of user mode. */
  function OwnTop(mode: bv32): bv32 {
    if mode == 0x11 || mode == 0x12 || mode == 0x13 || mode == 0x17 || mode == 0x1B then mode else 0x10
  }

  /** Two modes see the same register `k`: 0 to 7 always, 8 to 12 if both or neither is FIQ mode. */
  predicate Shared(mode: bv32, other: bv32, k: nat) {
    k < 8 || (k < 13 && (mode == 0x11 <==> other == 0x11)) || OwnTop(mode) == OwnTop(other)
  }

  /** What is written in one mode is seen in exactly the modes that share the register. */
  lemma WrittenIsSeen(a: Arch, mode: bv32, other: bv32, k: nat, j: nat, v: bv32)
    requires a.Valid() && k < 15 && j < 15
    ensures var r := a.WithRegIn(BankOf(mode), k, v);
            r.RegIn(BankOf(other), j) == if j == k && Shared(mode, other, k) then v else a.RegIn(BankOf(other), j)
  {
    hide BankOf, OwnTop;
    SameOwn(mode, other);
    WrittenInBank(a.file, BankOf(mode), BankOf(other), k, j, v);
  }

  /** Two registers of two modes are one place exactly if they are the same register and shared. */
  lemma SamePlace(mode: bv32, other: bv32, k: nat, j: nat)
    requires k < 15 && j < 15
    ensures PlaceOf(BankOf(mode), k) == PlaceOf(BankOf(other), j) <==> k == j && Shared(mode, other, k)
  {
    hide BankOf, OwnTop;
    SameOwn(mode, other);
  }

  lemma SameOwn(mode: bv32, other: bv32)
    ensures OwnTop(mode) == OwnTop(other) <==> BankOf(mode) == BankOf(other)
    ensures mode == 0x11 <==> BankOf(mode) == Fiq
    ensures other == 0x11 <==> BankOf(other) == Fiq
  {
  }

  lemma WrittenInBank(f: RegFile, b: Bank, c: Bank, k: nat, j: nat, v: bv32)
    requires f.Valid() && k < 15 && j < 15
    ensures f.With(b, k, v).Get(c, j) ==
            if j == k && (k < 8 || (k < 13 && (b == Fiq <==> c == Fiq)) || b == c) then v else f.Get(c, j)
  {
  }
}
