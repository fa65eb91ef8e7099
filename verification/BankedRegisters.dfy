/**
  Processor modes, banked registers and exceptions (src/ARM.cpp, src/ARMInterpreter.cpp).

  The code keeps the registers of the current mode in `R` and swaps them with bank arrays when the
  mode changes. It is proved against the architected state of `ArmState`.
*/
module BankedRegisters {
  import opened ArmState

  /** The register arrays of the code. The last element of a bank array is the saved status register. */
  datatype Arrays = Arrays(
    r: seq<bv32>, fiq: seq<bv32>, irq: seq<bv32>, svc: seq<bv32>, abt: seq<bv32>, und: seq<bv32>)
  {
    predicate Valid() {
      |r| == 16 && |fiq| == 8 && |irq| == |svc| == |abt| == |und| == 3
    }

    /** What the bank array of `b` holds for registers 13 and 14. */
    function Stored(b: Bank): (top: seq<bv32>)
      requires Valid()
      ensures |top| == 2
    {
      match b
      case Usr => r[13..15]
      case Fiq => fiq[5..7]
      case Irq => irq[..2]
      case Svc => svc[..2]
      case Abt => abt[..2]
      case Und => und[..2]
    }

    /** The registers 13 and 14 of bank `b`, while those of bank `current` are in `r`. */
    function Top(b: Bank, current: Bank): (top: seq<bv32>)
      requires Valid()
      ensures |top| == 2
    {
      if b == current then r[13..15] else if b == Usr then Stored(current) else Stored(b)
    }

    /** The register file, while the registers of bank `current` are in `r`. */
    function File(current: Bank): (f: RegFile)
      requires Valid()
      ensures f.Valid()
    {
      RegFile(r[..8],
              (if current == Fiq then fiq[..5] else r[8..13]) + Top(Usr, current),
              (if current == Fiq then r[8..13] else fiq[..5]) + Top(Fiq, current),
              Top(Irq, current), Top(Svc, current), Top(Abt, current), Top(Und, current))
    }

    function WithSpsr(b: Bank, psr: bv32): (s: Arrays)
      requires Valid() && b != Usr
      ensures s.Valid()
    {
      match b
      case Fiq => this.(fiq := fiq[7 := psr])
      case Irq => this.(irq := irq[2 := psr])
      case Svc => this.(svc := svc[2 := psr])
      case Abt => this.(abt := abt[2 := psr])
      case Und => this.(und := und[2 := psr])
    }

    function Spsrs(): map<Bank, bv32>
      requires Valid()
    {
      map[Fiq := fiq[7], Irq := irq[2], Svc := svc[2], Abt := abt[2], Und := und[2]]
    }
  }

  /** `after` has the registers of bank `b` and those in `r` exchanged. */
  ghost predicate Swapped(before: Arrays, after: Arrays, b: Bank) {
    && before.Valid() && after.Valid()
    && (forall i :: 0 <= i < 8 ==> after.r[i] == before.r[i]) && after.r[15] == before.r[15]
    && after.Spsrs() == before.Spsrs()
    && (forall c: Bank :: c != b && c != Usr && c != Fiq ==> after.Stored(c) == before.Stored(c))
    && after.Stored(b) == before.r[13..15] && after.r[13..15] == before.Stored(b)
    && (if b == Fiq then after.r[8..13] == before.fiq[..5] && after.fiq[..5] == before.r[8..13]
        else after.r[8..13] == before.r[8..13] && after.fiq[..7] == before.fiq[..7])
  }

  /** Exchanging the user registers in `r` for those of a bank, or back, moves nothing in the register file. */
  lemma SwapKeepsFile(before: Arrays, after: Arrays, b: Bank)
    requires Swapped(before, after, b)
    ensures after.File(b) == before.File(Usr) && after.File(Usr) == before.File(b)
  {
    assert after.r[..8] == before.r[..8];
    if b != Fiq {
      assert after.fiq[..5] == after.fiq[..7][..5] && after.fiq[5..7] == after.fiq[..7][5..];
      assert before.fiq[..5] == before.fiq[..7][..5] && before.fiq[5..7] == before.fiq[..7][5..];
    }
  }

  /** `r` holds the registers of the current mode: register by register, reading and writing there is
      reading and writing the register file. */
  lemma CurrentIsInR(s: Arrays, b: Bank, k: nat, v: bv32)
    requires s.Valid() && k < 15
    ensures s.r[k] == s.File(b).Get(b, k)
    ensures s.(r := s.r[k := v]).File(b) == s.File(b).With(b, k, v)
    ensures s.(r := s.r[k := v]).Spsrs() == s.Spsrs()
  {
    var f, g := s.(r := s.r[k := v]).File(b), s.File(b).With(b, k, v);
    assert f.low == g.low && f.usr == g.usr && f.fiq == g.fiq;
    assert f.irq == g.irq && f.svc == g.svc && f.abt == g.abt && f.und == g.und;
  }

  lemma PcIsNotBanked(s: Arrays, b: Bank, pc: bv32)
    requires s.Valid()
    ensures s.(r := s.r[15 := pc]).File(b) == s.File(b) && s.(r := s.r[15 := pc]).Spsrs() == s.Spsrs()
  {
    var t := s.(r := s.r[15 := pc]);
    assert t.r[..8] == s.r[..8] && t.r[8..13] == s.r[8..13] && t.r[13..15] == s.r[13..15];
  }

  lemma SpsrIsNotInFile(s: Arrays, b: Bank, psr: bv32, current: Bank)
    requires s.Valid() && b != Usr
    ensures s.WithSpsr(b, psr).File(current) == s.File(current)
    ensures s.WithSpsr(b, psr).Spsrs() == s.Spsrs()[b := psr]
  {
  }

  lemma PowerOnArrays(s: Arrays)
    requires s.Valid() && s.r == Zeros(16) && s.fiq == Zeros(7) + [0x10]
    requires s.irq == s.svc == s.abt == s.und == Zeros(2) + [0x10]
    ensures s.File(BankOf(Mode(0xD3))) == PowerOn().file && s.Spsrs() == PowerOn().spsr
  {
    var f, g := s.File(Svc), PowerOn().file;
    assert s.r[8..13] + s.svc[..2] == Zeros(7) && s.fiq[..5] + s.fiq[5..7] == Zeros(7);
    assert f.low == g.low && f.usr == g.usr && f.fiq == g.fiq;
  }

  lemma StateBitKeepsMode(psr: bv32, thumb: bool)
    ensures Mode(WithThumb(psr, thumb)) == Mode(psr)
    ensures psr & 0x10 != 0 ==> WithThumb(psr, thumb) & 0x10 != 0
  {
  }

  lemma Bit4Sticks(psr: bv32)
    ensures WithBit4(psr) & 0x10 != 0
  {
  }

  lemma SwitchedMode(psr: bv32, clear: bv32, set_: bv32)
    requires clear & 0x1F == 0x1F
    ensures Mode(Switched(psr, clear, set_)) == Mode(set_)
    ensures set_ & 0x10 != 0 ==> Switched(psr, clear, set_) & 0x10 != 0
  {
  }

  predicate IsVector(offset: bv32) { offset < 0x20 && offset & 3 == 0 }

  lemma SamePage(sys: System, offset: bv32)
    requires sys.VectorsAligned() && IsVector(offset)
    ensures Page(Target(sys.Vector(offset))) == Page(sys.exceptionBase)
  {
  }

  lemma MergedKeepsBit4(psr: bv32, mask: bv32, val: bv32)
    requires psr & 0x10 != 0
    ensures Merged(psr, mask, val) & 0x10 != 0
  {
  }

  lemma FlagsKeepMode(psr: bv32, flags: bv4)
    ensures Mode(WithFlags(psr, flags)) == Mode(psr)
    ensures psr & 0x10 != 0 ==> WithFlags(psr, flags) & 0x10 != 0
  {
  }

  lemma LowNibble(instr: bv32)
    ensures (instr & 0xF) as nat < 16
  {
  }

  /** The vectors share a page, so the check of the first covers them all, before and after the jump there. */
  lemma VectorFetch(sys: System, cpsr: bv32, offset: bv32)
    requires sys.VectorsAligned() && IsVector(offset)
    ensures var vector := sys.Vector(offset);
            && sys.CanFetch(cpsr, Target(vector)) == sys.CanFetch(cpsr, sys.exceptionBase)
            && sys.CanFetch(WithThumb(cpsr, ToThumb(vector)), Target(vector)) == sys.CanFetch(cpsr, sys.exceptionBase)
  {
    hide Mode, Target, ToThumb, WithThumb, IsVector, Page, System.Vector, System.VectorsAligned;
    SamePage(sys, offset);
    StateBitKeepsMode(cpsr, ToThumb(sys.Vector(offset)));
  }

  lemma PowerOnStatus()
    ensures Mode(0xD3) != 0x10 && PowerOn().cpsr == 0xD3 && PowerOn().pc == 0
  {
  }

  lemma ExceptionModes()
    ensures BankOf(Mode(0x93)) == Svc && BankOf(Mode(0x9B)) == Und
    ensures BankOf(Mode(0x97)) == Abt && BankOf(Mode(0xD2)) == Irq
  {
  }

  class ARM {
    const sys: System
    const R: array<bv32>
    const R_FIQ: array<bv32>
    const R_SVC: array<bv32>
    const R_ABT: array<bv32>
    const R_IRQ: array<bv32>
    const R_UND: array<bv32>
    var CPSR: bv32
    var UserMapInUse: bool

    constructor (sys: System)
      ensures Shape() && this.sys == sys
    {
      this.sys := sys;
      R := new bv32[16];
      R_FIQ := new bv32[8];
      R_SVC := new bv32[3];
      R_ABT := new bv32[3];
      R_IRQ := new bv32[3];
      R_UND := new bv32[3];
      CPSR := 0;
      UserMapInUse := false;
    }

    ghost predicate Shape() {
      && R.Length == 16 && R_FIQ.Length == 8
      && R_SVC.Length == R_ABT.Length == R_IRQ.Length == R_UND.Length == 3
      && R_SVC != R_ABT && R_SVC != R_IRQ && R_SVC != R_UND
      && R_ABT != R_IRQ && R_ABT != R_UND && R_IRQ != R_UND
    }

    ghost function Snapshot(): (s: Arrays)
      requires Shape()
      reads R, R_FIQ, R_SVC, R_ABT, R_IRQ, R_UND
      ensures s.Valid()
    {
      Arrays(R[..], R_FIQ[..], R_IRQ[..], R_SVC[..], R_ABT[..], R_UND[..])
    }

    method SwapFiq()
      requires Shape()
      modifies R, R_FIQ
      ensures forall i :: 0 <= i < 7 ==> R[8 + i] == old(R_FIQ[i]) && R_FIQ[i] == old(R[8 + i])
      ensures forall i :: 0 <= i < 8 ==> R[i] == old(R[i])
      ensures R[15] == old(R[15]) && R_FIQ[7] == old(R_FIQ[7])
    {
      for k := 0 to 7
        invariant forall i :: 0 <= i < k ==> R[8 + i] == old(R_FIQ[i]) && R_FIQ[i] == old(R[8 + i])
        invariant forall i :: 8 + k <= i < 15 ==> R[i] == old(R[i])
        invariant forall i :: k <= i < 8 ==> R_FIQ[i] == old(R_FIQ[i])
        invariant forall i :: 0 <= i < 8 ==> R[i] == old(R[i])
        invariant R[15] == old(R[15])
      {
        R[8 + k], R_FIQ[k] := R_FIQ[k], R[8 + k];
      }
    }

    method SwapFiqBank()
      requires Shape()
      modifies R, R_FIQ
      ensures Swapped(old(Snapshot()), Snapshot(), Fiq)
    {
      ghost var before := Snapshot();
      SwapFiq();
      ghost var after := Snapshot();
      assert forall i :: 0 <= i < 5 ==> R[8..13][i] == R[8 + i] && before.r[8..13][i] == before.r[8 + i];
      assert after.r[8..13] == before.fiq[..5] && after.fiq[..5] == before.r[8..13];
      assert after.r[13..15] == before.fiq[5..7] && after.fiq[5..7] == before.r[13..15];
    }

    method SwapTop(bank: array<bv32>)
      requires Shape() && bank in {R_IRQ, R_SVC, R_ABT, R_UND}
      modifies R, bank
      ensures R[..] == old(R[..13] + bank[..2] + [R[15]])
      ensures bank[..] == old(R[13..15] + [bank[2]])
    {
      R[13], bank[0] := bank[0], R[13];
      R[14], bank[1] := bank[1], R[14];
    }

    method SwapBank(b: Bank)
      requires Shape()
      modifies R, R_FIQ, R_SVC, R_ABT, R_IRQ, R_UND
      ensures Snapshot().File(b) == old(Snapshot().File(Usr)) && Snapshot().File(Usr) == old(Snapshot().File(b))
      ensures R[15] == old(R[15]) && Snapshot().Spsrs() == old(Snapshot().Spsrs())
    {
      ghost var before := Snapshot();
      match b {
        case Fiq => SwapFiqBank();
        case Irq => SwapTop(R_IRQ);
        case Svc => SwapTop(R_SVC);
        case Abt => SwapTop(R_ABT);
        case Und => SwapTop(R_UND);
        case Usr => return;
      }
      assert Swapped(before, Snapshot(), b);
      SwapKeepsFile(before, Snapshot(), b);
    }

    /** Makes `R` hold the registers of the new mode. The register file behind the arrays stays as it is. */
    method UpdateMode(oldmode: bv32, newmode: bv32, phony: bool)
      requires Shape()
      modifies this`UserMapInUse, R, R_FIQ, R_SVC, R_ABT, R_IRQ, R_UND
      ensures Snapshot().File(BankOf(Mode(newmode))) == old(Snapshot().File(BankOf(Mode(oldmode))))
      ensures R[15] == old(R[15]) && Snapshot().Spsrs() == old(Snapshot().Spsrs())
      ensures UserMapInUse == if Mode(oldmode) == Mode(newmode) || phony || sys.num != 0 then old(UserMapInUse)
                              else Mode(newmode) == 0x10
    {
      if Mode(oldmode) == Mode(newmode) { return; }
      SwapBank(BankOf(Mode(oldmode)));
      SwapBank(BankOf(Mode(newmode)));
      if !phony && sys.num == 0 {
        UserMapInUse := Mode(newmode) == 0x10;
      }
    }

    ghost function Abs(): (a: Arch)
      requires Shape()
      reads this, R, R_FIQ, R_SVC, R_ABT, R_IRQ, R_UND
      ensures a.Valid()
    {
      Arch(Snapshot().File(BankOf(Mode(CPSR))), Snapshot().Spsrs(), CPSR, R[15])
    }

    /** On the ARM9 the user map is in use exactly in user mode; bit 4 is set in every status register. */
    ghost predicate Valid()
      reads this, R, R_FIQ, R_SVC, R_ABT, R_IRQ, R_UND
    {
      && Shape()
      && (sys.num == 0 ==> (UserMapInUse <==> Mode(CPSR) == 0x10))
      && Abs().Bit4Set()
      && sys.VectorsAligned()
    }

    /** The saved status of the current mode, or the status itself where there is none. */
    method SavedStatus() returns (psr: bv32)
      requires Shape()
      ensures var b := SpsrBank(Mode(CPSR)); psr == if b == Usr then CPSR else Abs().spsr[b]
    {
      hide Arrays.File;
      var mode := Mode(CPSR);
      if mode == 0x11 { return R_FIQ[7]; }
      if mode == 0x12 { return R_IRQ[2]; }
      if mode == 0x13 { return R_SVC[2]; }
      if 0x14 <= mode <= 0x17 { return R_ABT[2]; }
      if 0x18 <= mode <= 0x1B { return R_UND[2]; }
      return CPSR;
    }

    method RestoreCPSR()
      requires Valid()
      modifies this, R, R_FIQ, R_SVC, R_ABT, R_IRQ, R_UND
      ensures Valid() && Abs() == Restore(old(Abs()))
    {
      hide Arrays.File, Arrays.Spsrs, BankOf, SpsrBank, Mode, WithBit4;
      var oldcpsr := CPSR;
      CPSR := SavedStatus();
      Bit4Sticks(CPSR);
      CPSR := WithBit4(CPSR);
      UpdateMode(oldcpsr, CPSR, false);
    }

    /** Sets `R[15]` and the state bit, as every jump does. */
    method LandAt(addr: bv32)
      requires Valid()
      modifies this`CPSR, R
      ensures Valid() && Abs() == Land(old(Abs()), addr)
    {
      hide Arrays.File, Arrays.Spsrs, BankOf, Mode, WithThumb, Target, ToThumb, Plus;
      StateBitKeepsMode(CPSR, ToThumb(addr));
      ghost var s := Snapshot();
      if ToThumb(addr) {
        R[15] := Plus(Target(addr), 2);
        CPSR := WithThumb(CPSR, true);
      } else {
        R[15] := Plus(Target(addr), 4);
        CPSR := WithThumb(CPSR, false);
      }
      PcIsNotBanked(s, BankOf(Mode(CPSR)), R[15]);
      assert Snapshot() == s.(r := s.r[15 := R[15]]);
    }

    /** The common start of every exception: the mode changes, and with it what `R` holds. */
    method SwitchMode(clear: bv32, set_: bv32)
      requires Valid() && clear & 0x1F == 0x1F && set_ & 0x10 != 0
      modifies this, R, R_FIQ, R_SVC, R_ABT, R_IRQ, R_UND
      ensures Valid() && CPSR == Switched(old(CPSR), clear, set_) && Mode(CPSR) == Mode(set_)
      ensures Abs() == old(Abs()).(cpsr := CPSR)
    {
      hide Arrays.File, Arrays.Spsrs, BankOf, Mode, Switched;
      SwitchedMode(CPSR, clear, set_);
      var oldcpsr := CPSR;
      CPSR := Switched(CPSR, clear, set_);
      UpdateMode(oldcpsr, CPSR, false);
    }

    /** `R` has the registers of bank `b`, and everything else is as the mode says. */
    ghost predicate Holds(a: Arch, b: Bank)
      reads this, R, R_FIQ, R_SVC, R_ABT, R_IRQ, R_UND
    {
      && Shape() && a.Valid()
      && a == Arch(Snapshot().File(b), Snapshot().Spsrs(), CPSR, R[15])
      && (sys.num == 0 ==> (UserMapInUse <==> Mode(CPSR) == 0x10))
      && a.Bit4Set() && sys.VectorsAligned()
    }

    lemma ValidHolds()
      requires Valid()
      ensures Shape() && Abs().Valid() && Holds(Abs(), Abs().Current())
    {
    }

    lemma HoldsIsValid(a: Arch)
      requires Holds(a, a.Current())
      ensures Valid() && Shape() && Abs() == a
    {
    }

    /** Shows another bank in `R` without a change of mode. */
    method ShowBank(oldmode: bv32, newmode: bv32, ghost a: Arch)
      requires Holds(a, BankOf(Mode(oldmode)))
      modifies this`UserMapInUse, R, R_FIQ, R_SVC, R_ABT, R_IRQ, R_UND
      ensures Holds(a, BankOf(Mode(newmode)))
    {
      hide Arrays.File, Arrays.Spsrs, BankOf, Mode;
      UpdateMode(oldmode, newmode, true);
    }

    method SetRIn(k: nat, v: bv32, ghost a: Arch, ghost b: Bank)
      requires Holds(a, b) && k < 16
      modifies R
      ensures Holds(a.WithRegIn(b, k, v), b)
    {
      hide Arrays.File, Arrays.Spsrs, RegFile.With, BankOf, Mode;
      ghost var s := Snapshot();
      R[k] := v;
      if k < 15 {
        CurrentIsInR(s, b, k, v);
      } else {
        PcIsNotBanked(s, b, v);
      }
      assert Snapshot() == s.(r := s.r[k := v]);
    }

    method GetRIn(k: nat, ghost a: Arch, ghost b: Bank) returns (v: bv32)
      requires Holds(a, b) && k < 16
      ensures v == a.RegIn(b, k)
    {
      hide Arrays.File, Arrays.Spsrs, RegFile.Get, BankOf, Mode;
      if k < 15 {
        CurrentIsInR(Snapshot(), b, k, 0);
      }
      v := R[k];
    }

    /** Writes a register of the current mode. */
    method SetR(k: nat, v: bv32)
      requires Valid() && k < 16
      modifies R
      ensures Valid() && Abs() == old(Abs()).WithRegIn(old(Abs()).Current(), k, v)
    {
      hide Arrays.File, Arrays.Spsrs, RegFile.With, BankOf, Mode;
      ghost var a := Abs();
      SetRIn(k, v, a, a.Current());
    }

    method GetR(k: nat) returns (v: bv32)
      requires Valid() && k < 16
      ensures v == Abs().Reg(k)
    {
      hide Arrays.File, Arrays.Spsrs, RegFile.Get, BankOf, Mode;
      v := GetRIn(k, Abs(), Abs().Current());
    }

    /** Writes the saved status of a bank. */
    method SetSpsr(b: Bank, psr: bv32)
      requires Valid() && b != Usr && psr & 0x10 != 0
      modifies R_FIQ, R_SVC, R_ABT, R_IRQ, R_UND
      ensures Valid() && Abs() == old(Abs()).(spsr := old(Abs().spsr)[b := psr])
    {
      hide BankOf, Mode, Arrays.File, Arrays.Spsrs;
      ghost var s := Snapshot();
      SpsrIsNotInFile(s, b, psr, BankOf(Mode(CPSR)));
      match b {
        case Fiq => R_FIQ[7] := psr;
        case Irq => R_IRQ[2] := psr;
        case Svc => R_SVC[2] := psr;
        case Abt => R_ABT[2] := psr;
        case Und => R_UND[2] := psr;
      }
      assert Snapshot() == s.WithSpsr(b, psr);
    }

    lemma StatusHasBit4()
      requires Valid()
      ensures CPSR & 0x10 != 0
    {
    }

    /** Fetching looks at the map in use. */
    predicate CanFetchNow(addr: bv32)
      reads this
    {
      sys.num != 0 || if UserMapInUse then sys.userExec(Page(addr)) else sys.privExec(Page(addr))
    }

    lemma MapFollowsMode(addr: bv32)
      requires Valid()
      ensures CanFetchNow(addr) == sys.CanFetch(CPSR, addr)
    {
    }

    method JumpTo(addr: bv32, restorecpsr: bool)
      requires Valid()
      modifies this, R, R_FIQ, R_SVC, R_ABT, R_IRQ, R_UND
      ensures Valid()
      ensures Abs() == if restorecpsr then JumpRestoring(sys, old(Abs()), addr) else Jump(sys, old(Abs()), addr)
      decreases if !restorecpsr && sys.CanFetch(CPSR, Target(addr)) then 0 else 2
    {
      hide Arrays.File, Arrays.Spsrs, Arch.Bit4Set, Restore, Mode, WithThumb, Thumb, Target, ToThumb, PrefetchAborted, WithState;
      var target := addr;
      if restorecpsr {
        RestoreCPSR();
        target := WithState(target, Thumb(CPSR));
      }
      StateBitKeepsMode(CPSR, ToThumb(target));
      LandAt(target);
      if !CanFetchNow(Target(target)) {
        PrefetchAbort();
      }
    }

    method PrefetchAbort()
      requires Valid()
      modifies this, R, R_FIQ, R_SVC, R_ABT, R_IRQ, R_UND
      ensures Valid() && Abs() == PrefetchAborted(sys, old(Abs()))
      decreases 1
    {
      hide Arrays.File, Arrays.Spsrs, Arch.Bit4Set, BankOf, Mode, WithThumb, Moved, Target, ToThumb, Switched,
           RegFile.With, System.CanFetch, CanFetchNow, System.Vector, System.VectorsAligned;
      var oldcpsr := CPSR;
      StatusHasBit4();
      ExceptionModes();
      SwitchMode(0xBF, 0x97);
      MapFollowsMode(sys.exceptionBase);
      if !CanFetchNow(sys.exceptionBase) { return; }
      VectorFetch(sys, CPSR, 0x0C);
      SetSpsr(Abt, oldcpsr);
      SetR(14, Moved(R[15], oldcpsr, 0, 2));
      JumpTo(sys.Vector(0x0C), false);
    }

    method EnterException(clear: bv32, set_: bv32, b: Bank, lr: bv32)
      requires Valid() && clear & 0x1F == 0x1F && set_ & 0x10 != 0 && b != Usr && BankOf(Mode(set_)) == b
      modifies this, R, R_FIQ, R_SVC, R_ABT, R_IRQ, R_UND
      ensures Valid() && Abs() == Enter(old(Abs()), clear, set_, b, lr)
    {
      hide Arrays.File, Arrays.Spsrs, Arch.Bit4Set, BankOf, Mode, Switched, RegFile.With;
      var oldcpsr := CPSR;
      StatusHasBit4();
      SwitchMode(clear, set_);
      SetSpsr(b, oldcpsr);
      SetR(14, lr);
    }

    method TriggerIRQ()
      requires Valid()
      modifies this, R, R_FIQ, R_SVC, R_ABT, R_IRQ, R_UND
      ensures Valid() && Abs() == Taken(sys, old(Abs()), Interrupt)
    {
      hide Arrays.File, Arrays.Spsrs, Arch.Bit4Set, BankOf, Mode, Moved, Masked, Enter, Jump;
      ExceptionModes();
      if Masked(CPSR) { return; }
      EnterException(0xFF, 0xD2, Irq, Moved(R[15], CPSR, 0, 2));
      JumpTo(sys.Vector(0x18), false);
    }

    method DataAbort()
      requires Valid()
      modifies this, R, R_FIQ, R_SVC, R_ABT, R_IRQ, R_UND
      ensures Valid() && Abs() == Taken(sys, old(Abs()), DataAbt)
    {
      hide Arrays.File, Arrays.Spsrs, Arch.Bit4Set, BankOf, Mode, Moved, Enter, Jump;
      ExceptionModes();
      EnterException(0xBF, 0x97, Abt, Moved(R[15], CPSR, 0, 4));
      JumpTo(sys.Vector(0x10), false);
    }

    method A_SVC()
      requires Valid() && !Thumb(CPSR)
      modifies this, R, R_FIQ, R_SVC, R_ABT, R_IRQ, R_UND
      ensures Valid() && Abs() == Taken(sys, old(Abs()), SoftwareInterrupt)
    {
      hide Arrays.File, Arrays.Spsrs, Arch.Bit4Set, BankOf, Mode, Thumb, Enter, Jump;
      ExceptionModes();
      EnterException(0xBF, 0x93, Svc, R[15] - 4);
      JumpTo(sys.Vector(0x08), false);
    }

    method T_SVC()
      requires Valid() && Thumb(CPSR)
      modifies this, R, R_FIQ, R_SVC, R_ABT, R_IRQ, R_UND
      ensures Valid() && Abs() == Taken(sys, old(Abs()), SoftwareInterrupt)
    {
      hide Arrays.File, Arrays.Spsrs, Arch.Bit4Set, BankOf, Mode, Thumb, Enter, Jump;
      ExceptionModes();
      EnterException(0xBF, 0x93, Svc, R[15] - 2);
      JumpTo(sys.Vector(0x08), false);
    }

    method A_UNK()
      requires Valid() && !Thumb(CPSR)
      modifies this, R, R_FIQ, R_SVC, R_ABT, R_IRQ, R_UND
      ensures Valid() && Abs() == Taken(sys, old(Abs()), Undefined)
    {
      hide Arrays.File, Arrays.Spsrs, Arch.Bit4Set, BankOf, Mode, Thumb, Enter, Jump;
      ExceptionModes();
      EnterException(0xBF, 0x9B, Und, R[15] - 4);
      JumpTo(sys.Vector(0x04), false);
    }

    method T_UNK()
      requires Valid() && Thumb(CPSR)
      modifies this, R, R_FIQ, R_SVC, R_ABT, R_IRQ, R_UND
      ensures Valid() && Abs() == Taken(sys, old(Abs()), Undefined)
    {
      hide Arrays.File, Arrays.Spsrs, Arch.Bit4Set, BankOf, Mode, Thumb, Enter, Jump;
      ExceptionModes();
      EnterException(0xBF, 0x9B, Und, R[15] - 2);
      JumpTo(sys.Vector(0x04), false);
    }

    /** MSR: a write to CPSR may change the mode; a write to a saved status is lost where there is none. */
    method WriteStatus(instr: bv32, val: bv32)
      requires Valid()
      modifies this, R, R_FIQ, R_SVC, R_ABT, R_IRQ, R_UND
      ensures Valid() && Abs() == StatusWritten(old(Abs()), instr, val)
    {
      hide Arrays.File, Arrays.Spsrs, BankOf, SpsrBank, Mode, WritableMask, Merged, ToSaved;
      var mask := WritableMask(instr, CPSR);
      if ToSaved(instr) {
        if SpsrBank(Mode(CPSR)) == Usr { return; }
        var psr := SavedStatus();
        MergedKeepsBit4(psr, mask, val);
        SetSpsr(SpsrBank(Mode(CPSR)), Merged(psr, mask, val));
      } else {
        var oldpsr := CPSR;
        MergedKeepsBit4(CPSR, mask, val);
        CPSR := Merged(CPSR, mask, val);
        UpdateMode(oldpsr, CPSR, false);
      }
    }

    method A_MSR_IMM(instr: bv32)
      requires Valid()
      modifies this, R, R_FIQ, R_SVC, R_ABT, R_IRQ, R_UND
      ensures Valid()
      ensures Abs() == StatusWritten(old(Abs()), instr, Rotated(instr & 0xFF, (instr >> 7) & 0x1E))
    {
      hide *;
      WriteStatus(instr, Rotated(instr & 0xFF, (instr >> 7) & 0x1E));
    }

    method A_MSR_REG(instr: bv32)
      requires Valid()
      modifies this, R, R_FIQ, R_SVC, R_ABT, R_IRQ, R_UND
      ensures Valid()
      ensures (instr & 0xF) as nat < 16
      ensures Abs() == StatusWritten(old(Abs()), instr, old(Abs()).Reg((instr & 0xF) as nat))
    {
      hide *;
      LowNibble(instr);
      var val := GetR((instr & 0xF) as nat);
      WriteStatus(instr, val);
    }

    method SetFlags(flags: bv4)
      requires Valid()
      modifies this`CPSR
      ensures Valid() && Abs() == old(Abs()).(cpsr := WithFlags(old(CPSR), flags))
      ensures CPSR == WithFlags(old(CPSR), flags)
    {
      hide Arrays.File, Arrays.Spsrs, BankOf, Mode, WithFlags;
      FlagsKeepMode(CPSR, flags);
      CPSR := WithFlags(CPSR, flags);
    }

    /** SUBS pc, lr, #imm, and MOVS pc, lr with 0 for `imm`. */
    method ReturnFromException(imm: bv32, flags: bv4)
      requires Valid()
      modifies this, R, R_FIQ, R_SVC, R_ABT, R_IRQ, R_UND
      ensures Valid() && Abs() == Returned(sys, old(Abs()), imm, flags)
    {
      hide Arrays.File, Arrays.Spsrs, Arch.Bit4Set, Arch.Reg, Before, WithFlags, JumpRestoring, Jump;
      var lr := GetR(14);
      SetFlags(flags);
      JumpTo(Before(lr, imm), true);
    }

    /** Any program of these steps, handlers within handlers included, does what the architecture says. */
    method Execute(steps: seq<Step>)
      requires Valid() && forall s <- steps :: WellFormed(s)
      modifies this, R, R_FIQ, R_SVC, R_ABT, R_IRQ, R_UND
      ensures Valid() && Abs() == RunAll(sys, old(Abs()), steps)
      decreases steps
    {
      for i := 0 to |steps|
        invariant Valid() && RunAll(sys, Abs(), steps[i..]) == RunAll(sys, old(Abs()), steps)
      {
        ExecuteStep(steps[i]);
        assert steps[i..][1..] == steps[i + 1..];
      }
    }

    method ExecuteStep(s: Step)
      requires Valid() && WellFormed(s)
      modifies this, R, R_FIQ, R_SVC, R_ABT, R_IRQ, R_UND
      ensures Valid() && Abs() == Run(sys, old(Abs()), s)
      decreases s
    {
      hide Arrays.File, Arrays.Spsrs, Arch.Bit4Set, Mode, Masked, Moved, Returned, Taken, Jump, StatusWritten, RegFile.With, BankOf;
      match s
      case Advance => Advance();
      case Write(k, v) => SetR(k, v);
      case Msr(instr, val) => WriteStatus(instr, val);
      case Branch(addr) => JumpTo(addr, false);
      case Raise(kind, handler, flags) =>
        if kind.Interrupt? && Masked(CPSR) { return; }
        RaiseException(kind);
        Execute(handler);
        ReturnFromException(Distance(kind), flags);
    }

    method RaiseException(kind: Kind)
      requires Valid()
      modifies this, R, R_FIQ, R_SVC, R_ABT, R_IRQ, R_UND
      ensures Valid() && Abs() == Raised(sys, old(Abs()), kind)
    {
      hide Arrays.File, Arrays.Spsrs, Arch.Bit4Set, Mode, Thumb, Masked, Moved, Taken, BankOf;
      if !kind.Interrupt? {
        Advance();
      }
      match kind
      case SoftwareInterrupt => if Thumb(CPSR) { T_SVC(); } else { A_SVC(); }
      case Undefined => if Thumb(CPSR) { T_UNK(); } else { A_UNK(); }
      case Interrupt => TriggerIRQ();
      case DataAbt => DataAbort();
    }

    /** The program counter runs ahead as the next instruction is fetched. */
    method Advance()
      requires Valid()
      modifies R
      ensures Valid() && Abs() == Advanced(old(Abs()))
    {
      hide Arrays.File, Arrays.Spsrs, BankOf, Mode, Moved;
      ghost var s := Snapshot();
      R[15] := Moved(R[15], CPSR, 4, 2);
      PcIsNotBanked(s, BankOf(Mode(CPSR)), R[15]);
      assert Snapshot() == s.(r := s.r[15 := R[15]]);
    }

    /** Supervisor mode, interrupts masked, every register zero, and a jump to the first vector. */
    method Reset()
      requires Shape() && sys.VectorsAligned()
      modifies this, R, R_FIQ, R_SVC, R_ABT, R_IRQ, R_UND
      ensures Valid() && Abs() == Jump(sys, PowerOn(), sys.exceptionBase)
    {
      hide Jump, PowerOn, BankOf, Mode, Arrays.File, Arrays.Spsrs, System.VectorsAligned, Arch.Bit4Set;
      ClearRegisters();
      CPSR := 0xD3;
      UserMapInUse := false;
      PowerOnArrays(Snapshot());
      PowerOnStatus();
      JumpTo(sys.exceptionBase, false);
    }

    method ClearRegisters()
      requires Shape()
      modifies R, R_FIQ, R_SVC, R_ABT, R_IRQ, R_UND
      ensures R[..] == Zeros(16) && R_FIQ[..] == Zeros(7) + [0x10]
      ensures R_SVC[..] == R_ABT[..] == R_IRQ[..] == R_UND[..] == Zeros(2) + [0x10]
    {
      for i := 0 to 16
        modifies R
        invariant forall j :: 0 <= j < i ==> R[j] == 0
      {
        R[i] := 0;
      }
      for i := 0 to 7
        modifies R_FIQ
        invariant forall j :: 0 <= j < i ==> R_FIQ[j] == 0
      {
        R_FIQ[i] := 0;
      }
      R_FIQ[7] := 0x10;
      ClearBank(R_SVC);
      ClearBank(R_ABT);
      ClearBank(R_IRQ);
      ClearBank(R_UND);
    }

    static method ClearBank(bank: array<bv32>)
      requires bank.Length == 3
      modifies bank
      ensures bank[..] == Zeros(2) + [0x10]
    {
      bank[0], bank[1], bank[2] := 0, 0, 0x10;
    }
  }
}
