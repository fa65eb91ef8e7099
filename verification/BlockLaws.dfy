/**
  What block transfers do, in the numbers of the manual (DDI 0100, sections A5.4.1 to A5.4.4): the fields of the
  instruction, when a listed base is written back, which base an S-bit store finds in another bank, and the state in
  which a loaded program counter is run.
*/
module BlockLaws {
  import opened ArmState
  import opened BankedRegisters
  import opened BlockTransfer
  import opened ArmLaws

  /** Bit 21: write-back, 22: user bank, 23: upwards, 24: before; bits 16 to 19: the base; bit i: register i. */
  lemma Fields(instr: bv32)
    ensures WritesBack(instr) == (instr & 0x20_0000 != 0)
    ensures UserBank(instr) == (instr & 0x40_0000 != 0)
    ensures Upwards(instr) == (instr & 0x80_0000 != 0)
    ensures PreIndexed(instr) == (instr & 0x100_0000 != 0)
    ensures BaseRegister(instr) == ((instr & 0xF_0000) >> 16) as nat
    ensures Bit(instr, 15) == (instr & 0x8000 != 0)
  {
    BaseBits(instr);
  }

  lemma BaseBits(instr: bv32)
    ensures (instr >> 16) & 0xF == (instr & 0xF_0000) >> 16
  {
  }

  /** A loaded base is written back if it is not in the list; else on the ARM9 alone, and there if it is the whole
      list or some register above it is listed, too. */
  lemma BaseAfterLoad(num: nat, instr: bv32)
    ensures var rn := BaseRegister(instr);
            LoadWritesBack(num, instr) <==>
            && instr & 0x20_0000 != 0
            && (Bit(instr, rn) ==> num == 0 && ((forall j | 0 <= j < 16 :: Bit(instr, j) ==> j == rn)
                                                || exists j :: rn < j < 16 && Bit(instr, j)))
  {
    hide Bit, BaseRegister, WritesBack;
    Fields(instr);
    var rn := BaseRegister(instr);
    CountNone(instr, 0, rn);
    CountNone(instr, rn + 1, 16);
    CountGrows(instr, rn + 1, 16);
    CountGrows(instr, 0, rn);
    assert Count(instr, 0) == 0;
    CountStep(instr, rn);
  }

  /** Two counts differ exactly if something is listed in between. */
  lemma {:induction false} CountNone(instr: bv32, lo: nat, hi: nat)
    requires lo <= hi <= 16
    ensures Count(instr, lo) <= Count(instr, hi)
    ensures Count(instr, lo) == Count(instr, hi) <==> forall j | lo <= j < hi :: !Bit(instr, j)
  {
    hide Bit;
    if lo < hi {
      CountNone(instr, lo, hi - 1);
      CountGrows(instr, lo, hi - 1);
    }
  }

  /** An S-bit store takes its base from another bank exactly if the mode has a register of its own there, but for
      the reserved modes, which share the registers of user mode and are treated as if they did not. */
  lemma BankedBase(instr: bv32, cpsr: bv32)
    ensures var rn, mode := BaseRegister(instr), cpsr & 0x1F;
            BaseIsBanked(instr, cpsr) <==>
            && instr & 0x40_0000 != 0 && rn < 15
            && (!Shared(mode, 0x10, rn) || (Reserved(mode) && 13 <= rn))
  {
    hide UserBank, BaseRegister;
    Fields(instr);
  }

  /** The modes without a name. */
  predicate Reserved(mode: bv32) {
    BankOf(mode) == Usr && mode != 0x10 && mode != 0x1F
  }

  /** The state that `pc` is run in, and the program counter one instruction ahead of it. */
  predicate RunsAt(r: Arch, pc: bv32, thumb: bool) {
    if thumb then r.cpsr & 0x20 != 0 && r.pc == Plus(pc & 0xFFFF_FFFE, 2)
    else r.cpsr & 0x20 == 0 && r.pc == Plus(pc & 0xFFFF_FFFC, 4)
  }

  lemma JumpRuns(sys: System, a: Arch, addr: bv32)
    requires a.Valid() && (sys.num != 0 || forall page :: sys.userExec(page) && sys.privExec(page))
    ensures RunsAt(Jump(sys, a, addr), addr, addr & 1 != 0)
  {
    hide Jump, Plus;
    JumpIs(sys, a, addr);
    StateBits(a.cpsr);
  }

  lemma StateBits(psr: bv32)
    ensures (psr | 0x20) & 0x20 != 0 && psr & 0xFFFF_FFDF & 0x20 == 0
  {
  }

  lemma ClearedBit(pc: bv32)
    ensures pc & !1 & 1 == 0 && pc & !1 & 0xFFFF_FFFC == pc & 0xFFFF_FFFC
  {
  }

  lemma SetBit(pc: bv32)
    ensures (pc | 1) & 1 != 0 && (pc | 1) & 0xFFFF_FFFE == pc & 0xFFFF_FFFE
  {
  }

  lemma RunsCleared(r: Arch, pc: bv32)
    requires RunsAt(r, pc & !1, pc & !1 & 1 != 0)
    ensures RunsAt(r, pc, false)
  {
    hide Plus;
    ClearedBit(pc);
  }

  lemma RunsSet(r: Arch, pc: bv32)
    requires RunsAt(r, pc | 1, (pc | 1) & 1 != 0)
    ensures RunsAt(r, pc, true)
  {
    hide Plus;
    SetBit(pc);
  }

  lemma JumpLoaded(sys: System, a: Arch, pc: bv32)
    requires a.Valid() && (sys.num != 0 || forall page :: sys.userExec(page) && sys.privExec(page))
    ensures RunsAt(Jump(sys, a, LoadedPc(sys.num, pc)), pc, sys.num != 1 && pc & 1 != 0)
    ensures RunsAt(Jump(sys, a, PoppedPc(sys.num, pc)), pc, sys.num == 1 || pc & 1 != 0)
  {
    hide Jump, RunsAt;
    if sys.num == 1 {
      JumpRuns(sys, a, pc & !1);
      RunsCleared(Jump(sys, a, pc & !1), pc);
      JumpRuns(sys, a, pc | 1);
      RunsSet(Jump(sys, a, pc | 1), pc);
    } else {
      JumpRuns(sys, a, pc);
    }
  }

  /** LDM with the program counter: on the ARM9 bit 0 of the word selects the state, the ARM7 stays in ARM state. */
  lemma LoadedPcRuns(sys: System, m: Memory, a: Arch, instr: bv32)
    requires a.Valid() && Bit(instr, 15) && instr & 0x40_0000 == 0
    requires sys.num != 0 || forall page :: sys.userExec(page) && sys.privExec(page)
    ensures var pc := Read(m, Address(instr, a.Reg(BaseRegister(instr)), 15));
            RunsAt(LoadedState(sys, m, a, instr), pc, sys.num != 1 && pc & 1 != 0)
  {
    hide Bit, UserBank, Plus, Read, Address, BaseRegister, LoadedRegisters, LoadedPc, Jump, RunsAt;
    assert !UserBank(instr) by { Fields(instr); }
    JumpLoaded(sys, LoadedRegisters(sys.num, m, a, instr), Read(m, Address(instr, a.Reg(BaseRegister(instr)), 15)));
  }

  /** POP of the program counter: on the ARM9 bit 0 of the word selects the state, the ARM7 stays in THUMB state. */
  lemma PoppedPcRuns(sys: System, m: Memory, a: Arch, instr: bv32)
    requires a.Valid() && Bit(instr, 8)
    requires sys.num != 0 || forall page :: sys.userExec(page) && sys.privExec(page)
    ensures var pc := Read(m, Address(PopAsLdm(instr), a.Reg(13), 15));
            RunsAt(PoppedState(sys, m, a, instr), pc, sys.num == 1 || pc & 1 != 0)
  {
    hide Bit, PopAsLdm, Plus, Read, Address, LoadedFile, Jump, RegFile.With, End, PoppedPc;
    var l := PopAsLdm(instr);
    JumpLoaded(sys, a.(file := LoadedFile(m, a, l, 15)), Read(m, Address(l, a.Reg(13), 15)));
  }
}
