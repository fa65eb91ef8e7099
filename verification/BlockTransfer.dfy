/**
  LDM, STM, PUSH and POP (src/ARMInterpreter_LoadStore.cpp), against sections A5.4.1 to A5.4.4 of the ARM
  Architecture Reference Manual (DDI 0100): the k-th lowest listed register goes to or comes from the word
  4k after the start address of the addressing mode.
*/
module BlockTransfer {
  import opened ArmState
  import opened BankedRegisters

  // ----- words in memory -----

  datatype Location = Location(address: bv32)

  /** What was never written reads as zero. */
  type Memory = map<Location, bv32>

  /** The low two address bits are ignored. */
  function Word(addr: bv32): Location { Location(addr & !3) }

  function Read(m: Memory, addr: bv32): bv32 {
    if Word(addr) in m then m[Word(addr)] else 0
  }

  function Written(m: Memory, addr: bv32, v: bv32): Memory {
    m[Word(addr) := v]
  }

  lemma ReadWritten(m: Memory, addr: bv32, v: bv32, other: bv32)
    ensures Read(Written(m, addr, v), other) == if Word(other) == Word(addr) then v else Read(m, other)
  {
    hide Word;
  }

  /** `k` words after `x`, modulo 2^32. */
  function Up(x: bv32, k: nat): bv32 {
    if k == 0 then x else Plus(Up(x, k - 1), 4)
  }

  /** `k` words before `x`. */
  function Down(x: bv32, k: nat): bv32
    decreases k
  {
    if k == 0 then x else Down(Plus(x, 0xFFFFFFFC), k - 1)
  }

  lemma DownThenUp(x: bv32)
    ensures Plus(Plus(x, 0xFFFFFFFC), 4) == x
  {
  }

  lemma UpThenDown(x: bv32)
    ensures Plus(Plus(x, 4), 0xFFFFFFFC) == x
  {
  }

  lemma {:induction false} DownUp(x: bv32, k: nat)
    ensures Up(Down(x, k), k) == x
    decreases k
  {
    hide Plus;
    if k > 0 {
      DownUp(Plus(x, 0xFFFFFFFC), k - 1);
      DownThenUp(x);
    }
  }

  lemma {:induction false} UpStep(x: bv32, k: nat)
    ensures Up(Plus(x, 4), k) == Up(x, k + 1)
  {
    hide Plus;
    if k > 0 {
      UpStep(x, k - 1);
    }
  }

  lemma {:induction false} UpDown(x: bv32, k: nat)
    ensures Down(Up(x, k), k) == x
  {
    hide Plus;
    if k > 0 {
      UpDown(x, k - 1);
      UpThenDown(Up(x, k - 1));
    }
  }

  /** Which of 32 consecutive words an address is in. */
  function Slot(x: bv32): bv5 { ((x >> 2) & 0x1F) as bv5 }

  function Index(x: bv32): nat { Slot(x) as nat }

  lemma SlotStep(x: bv32)
    ensures Slot(Plus(x, 4)) == Slot(x) + 1
  {
  }

  lemma Successor(x: bv5)
    ensures 0 <= x as nat < 32 && (x + 1) as nat == if x as nat == 31 then 0 else x as nat + 1
  {
  }

  lemma IndexStep(x: bv32)
    ensures Index(x) < 32 && Index(Plus(x, 4)) == if Index(x) == 31 then 0 else Index(x) + 1
  {
    hide Slot, Plus;
    SlotStep(x);
    Successor(Slot(x));
  }

  lemma {:induction false} IndexUp(x: bv32, k: nat)
    requires k <= 16
    ensures Index(x) < 32 && Index(Up(x, k)) == Index(x) + k - if Index(x) + k < 32 then 0 else 32
  {
    hide Plus, Index;
    if k > 0 {
      IndexUp(x, k - 1);
      IndexStep(Up(x, k - 1));
    } else {
      IndexStep(x);
    }
  }

  lemma SameWord(x: bv32, y: bv32)
    requires Word(x) == Word(y)
    ensures Index(x) == Index(y)
  {
  }

  /** The words of one transfer are different words, even where the block wraps around. */
  lemma WordsDiffer(x: bv32, j: nat, k: nat)
    requires j <= 16 && k <= 16 && j != k
    ensures Word(Up(x, j)) != Word(Up(x, k))
  {
    hide Up, Index, Word;
    if Word(Up(x, j)) == Word(Up(x, k)) {
      SameWord(Up(x, j), Up(x, k));
      IndexUp(x, j);
      IndexUp(x, k);
    }
  }

  // ----- the instruction word -----

  predicate Bit(instr: bv32, i: nat)
    requires i < 32
  {
    instr & (1 << i) != 0
  }

  function BaseRegister(instr: bv32): (r: nat)
    ensures r < 16
  {
    ((instr >> 16) & 0xF) as nat
  }

  predicate WritesBack(instr: bv32) { Bit(instr, 21) }

  predicate UserBank(instr: bv32) { Bit(instr, 22) }

  predicate Upwards(instr: bv32) { Bit(instr, 23) }

  predicate PreIndexed(instr: bv32) { Bit(instr, 24) }

  /** How many registers below `hi` are listed. */
  function Count(instr: bv32, hi: nat): (n: nat)
    requires hi <= 16
    ensures n <= hi
  {
    if hi == 0 then 0 else Count(instr, hi - 1) + if Bit(instr, hi - 1) then 1 else 0
  }

  lemma {:induction false} CountGrows(instr: bv32, lo: nat, hi: nat)
    requires lo <= hi <= 16
    ensures Count(instr, lo) <= Count(instr, hi)
    ensures lo < hi && Bit(instr, lo) ==> Count(instr, lo) < Count(instr, hi)
  {
    hide Bit;
    if lo < hi {
      CountGrows(instr, lo, hi - 1);
    }
  }

  /** Increment after, increment before, decrement after, decrement before. */
  function Start(instr: bv32, base: bv32): bv32 {
    var n := Count(instr, 16);
    if Upwards(instr) then (if PreIndexed(instr) then Plus(base, 4) else base)
    else if PreIndexed(instr) then Down(base, n) else Plus(Down(base, n), 4)
  }

  /** The base after a transfer that writes it back. */
  function End(instr: bv32, base: bv32): bv32 {
    var n := Count(instr, 16);
    if Upwards(instr) then Up(base, n) else Down(base, n)
  }

  /** The address of a listed register. */
  function Address(instr: bv32, base: bv32, i: nat): bv32
    requires i < 16
  {
    Up(Start(instr, base), Count(instr, i))
  }

  lemma AddressesDiffer(instr: bv32, base: bv32, i: nat, j: nat)
    requires i < 16 && j < 16 && i != j && Bit(instr, i) && Bit(instr, j)
    ensures Word(Address(instr, base, i)) != Word(Address(instr, base, j))
  {
    hide Bit, Count, Start, Word, Up;
    if i < j { CountGrows(instr, i, j); } else { CountGrows(instr, j, i); }
    WordsDiffer(Start(instr, base), Count(instr, i), Count(instr, j));
  }

  // ----- STM -----

  /** Whether the base register is another register than the one of its number in the user bank. */
  predicate BaseIsBanked(instr: bv32, cpsr: bv32) {
    var rn := BaseRegister(instr);
    UserBank(instr) &&
    if Mode(cpsr) == 0x11 then 8 <= rn < 15 else Mode(cpsr) != 0x10 && Mode(cpsr) != 0x1F && 13 <= rn < 15
  }

  function StoreBank(a: Arch, instr: bv32): Bank {
    if UserBank(instr) then Usr else a.Current()
  }

  function BaseWritten(a: Arch, instr: bv32): (r: Arch)
    requires a.Valid()
    ensures r.Valid()
  {
    var rn := BaseRegister(instr);
    a.WithRegIn(a.Current(), rn, End(instr, a.Reg(rn)))
  }

  /** A decrementing transfer writes back before it stores. */
  function StoreSource(a: Arch, instr: bv32): (r: Arch)
    requires a.Valid()
    ensures r.Valid()
  {
    if WritesBack(instr) && !Upwards(instr) then BaseWritten(a, instr) else a
  }

  /** What is stored for register `i`. A listed base is stored as it was; on the ARM7 only where it is the
      lowest register of the list, and as the address it goes to otherwise. */
  function StoredValue(num: nat, a: Arch, instr: bv32, i: nat): bv32
    requires a.Valid() && i < 16
  {
    var rn := BaseRegister(instr);
    if i == rn && !BaseIsBanked(instr, a.cpsr) then
      (if num == 0 || Count(instr, i) == 0 then a.Reg(rn) else Address(instr, a.Reg(rn), i))
    else StoreSource(a, instr).RegIn(StoreBank(a, instr), i)
  }

  function StoredMemory(num: nat, m: Memory, a: Arch, instr: bv32, hi: nat): Memory
    requires a.Valid() && hi <= 16
  {
    if hi == 0 then m
    else
      var before := StoredMemory(num, m, a, instr, hi - 1);
      if !Bit(instr, hi - 1) then before
      else Written(before, Address(instr, a.Reg(BaseRegister(instr)), hi - 1), StoredValue(num, a, instr, hi - 1))
  }

  function StoredState(a: Arch, instr: bv32): (r: Arch)
    requires a.Valid()
    ensures r.Valid()
  {
    if WritesBack(instr) then BaseWritten(a, instr) else a
  }

  // ----- LDM -----

  function LoadBank(a: Arch, instr: bv32): Bank {
    if UserBank(instr) && !Bit(instr, 15) then Usr else a.Current()
  }

  function LoadedFile(m: Memory, a: Arch, instr: bv32, hi: nat): (f: RegFile)
    requires a.Valid() && hi <= 15
    ensures f.Valid()
  {
    if hi == 0 then a.file
    else
      var before := LoadedFile(m, a, instr, hi - 1);
      if !Bit(instr, hi - 1) then before
      else before.With(LoadBank(a, instr), hi - 1, Read(m, Address(instr, a.Reg(BaseRegister(instr)), hi - 1)))
  }

  /** A base in the list is written back by the ARM9 alone, and only if it is the whole list or is not the
      highest register in it. */
  predicate LoadWritesBack(num: nat, instr: bv32) {
    var rn := BaseRegister(instr);
    WritesBack(instr) &&
    (Bit(instr, rn) ==> num == 0 && (Count(instr, 16) == 1 || Count(instr, rn + 1) < Count(instr, 16)))
  }

  /** All registers but the program counter, which is then jumped to. The write-back of a transfer to the user
      bank goes to the user bank, too. */
  function LoadedRegisters(num: nat, m: Memory, a: Arch, instr: bv32): (r: Arch)
    requires a.Valid()
    ensures r.Valid()
  {
    var rn := BaseRegister(instr);
    var loaded := a.(file := LoadedFile(m, a, instr, 15));
    if LoadWritesBack(num, instr) then loaded.WithRegIn(LoadBank(a, instr), rn, End(instr, a.Reg(rn))) else loaded
  }

  function LoadedPc(num: nat, pc: bv32): bv32 { if num == 1 then pc & !1 else pc }

  function LoadedState(sys: System, m: Memory, a: Arch, instr: bv32): (r: Arch)
    requires a.Valid()
    ensures r.Valid()
  {
    var r := LoadedRegisters(sys.num, m, a, instr);
    if !Bit(instr, 15) then r
    else
      var pc := LoadedPc(sys.num, Read(m, Address(instr, a.Reg(BaseRegister(instr)), 15)));
      if UserBank(instr) then JumpRestoring(sys, r, pc) else Jump(sys, r, pc)
  }

  // ----- what a transfer does -----

  /** Every listed register has its word, and no other word changes. */
  lemma {:induction false} StoredWords(num: nat, m: Memory, a: Arch, instr: bv32, hi: nat, addr: bv32)
    requires a.Valid() && hi <= 16
    ensures var base, after := a.Reg(BaseRegister(instr)), StoredMemory(num, m, a, instr, hi);
            && (forall i | 0 <= i < hi && Bit(instr, i) ::
                  Read(after, Address(instr, base, i)) == StoredValue(num, a, instr, i))
            && ((forall i | 0 <= i < hi && Bit(instr, i) :: Word(addr) != Word(Address(instr, base, i)))
                ==> Read(after, addr) == Read(m, addr))
  {
    hide Bit, BaseRegister, Address, StoredValue, Word, Read, Written, Arch.Reg;
    if hi > 0 {
      StoredWords(num, m, a, instr, hi - 1, addr);
      var base := a.Reg(BaseRegister(instr));
      forall i | 0 <= i < hi - 1 && Bit(instr, i) && Bit(instr, hi - 1)
        ensures Word(Address(instr, base, i)) != Word(Address(instr, base, hi - 1))
      {
        AddressesDiffer(instr, base, i, hi - 1);
      }
      forall other
        ensures Read(StoredMemory(num, m, a, instr, hi), other) ==
                if Bit(instr, hi - 1) && Word(other) == Word(Address(instr, base, hi - 1))
                then StoredValue(num, a, instr, hi - 1) else Read(StoredMemory(num, m, a, instr, hi - 1), other)
      {
        ReadWritten(StoredMemory(num, m, a, instr, hi - 1), Address(instr, base, hi - 1),
                    StoredValue(num, a, instr, hi - 1), other);
      }
    }
  }

  lemma WithGet(f: RegFile, b: Bank, k: nat, v: bv32, c: Bank, i: nat)
    requires f.Valid() && k < 15 && i < 15
    ensures f.With(b, k, v).Get(b, k) == v
    ensures i != k ==> f.With(b, k, v).Get(c, i) == f.Get(c, i)
  {
  }

  /** Every listed register gets its word; a register that is not listed stays as it is in every bank. */
  lemma {:induction false} LoadedWords(m: Memory, a: Arch, instr: bv32, hi: nat)
    requires a.Valid() && hi <= 15
    ensures var f := LoadedFile(m, a, instr, hi);
            && (forall i | 0 <= i < hi && Bit(instr, i) ::
                  f.Get(LoadBank(a, instr), i) == Read(m, Address(instr, a.Reg(BaseRegister(instr)), i)))
            && (forall i, c: Bank | 0 <= i < 15 && (i >= hi || !Bit(instr, i)) :: f.Get(c, i) == a.file.Get(c, i))
  {
    hide Bit, BaseRegister, Address, LoadBank, Read, Arch.Reg, RegFile.With, RegFile.Get;
    if hi > 0 {
      LoadedWords(m, a, instr, hi - 1);
      if Bit(instr, hi - 1) {
        var f := LoadedFile(m, a, instr, hi - 1);
        var b, v := LoadBank(a, instr), Read(m, Address(instr, a.Reg(BaseRegister(instr)), hi - 1));
        forall i: nat, c: Bank | i < 15
          ensures f.With(b, hi - 1, v).Get(b, hi - 1) == v
          ensures i != hi - 1 ==> f.With(b, hi - 1, v).Get(c, i) == f.Get(c, i)
        {
          WithGet(f, b, hi - 1, v, c, i);
        }
      }
    }
  }

  // ----- a load undoes a store -----

  predicate SameList(instr: bv32, other: bv32) {
    forall i | 0 <= i < 16 :: Bit(instr, i) == Bit(other, i)
  }

  lemma {:induction false} SameCount(instr: bv32, other: bv32, hi: nat)
    requires hi <= 16 && SameList(instr, other)
    ensures Count(instr, hi) == Count(other, hi)
  {
    hide Bit;
    if hi > 0 {
      SameCount(instr, other, hi - 1);
    }
  }

  /** The addressing modes of the two mirror each other: decrement before and increment after, and so on. */
  predicate Mirrors(stm: bv32, ldm: bv32) {
    && Upwards(ldm) != Upwards(stm) && PreIndexed(ldm) != PreIndexed(stm)
    && WritesBack(stm) && WritesBack(ldm) && !UserBank(stm) && !UserBank(ldm)
    && BaseRegister(stm) == BaseRegister(ldm) && SameList(stm, ldm)
  }

  lemma MirrorAddresses(stm: bv32, ldm: bv32, base: bv32)
    requires Mirrors(stm, ldm)
    ensures Start(ldm, End(stm, base)) == Start(stm, base) && End(ldm, End(stm, base)) == base
    ensures forall i | 0 <= i < 16 :: Address(ldm, End(stm, base), i) == Address(stm, base, i)
  {
    hide Bit, Count, Up, Down, Plus, Upwards, PreIndexed, WritesBack, UserBank, BaseRegister, SameList;
    var n := Count(stm, 16);
    SameCount(stm, ldm, 16);
    UpDown(base, n);
    DownUp(base, n);
    forall i | 0 <= i < 16 ensures Count(ldm, i) == Count(stm, i) { SameCount(stm, ldm, i); }
  }

  /** STM and then LDM in the mirrored addressing mode, with the base outside the list: whatever ran in
      between, if it kept the base and the words of the block, the listed registers and the base come
      back, and the others are left alone. */
  lemma RoundTrip(sys: System, m: Memory, a: Arch, stm: bv32, m2: Memory, a2: Arch, ldm: bv32)
    requires a.Valid() && a2.Valid() && a2.Current() == a.Current()
    requires Mirrors(stm, ldm) && !Bit(stm, BaseRegister(stm)) && !Bit(stm, 15)
    requires a2.Reg(BaseRegister(stm)) == StoredState(a, stm).Reg(BaseRegister(stm))
    requires forall i | 0 <= i < 16 && Bit(stm, i) ::
               Read(m2, Address(stm, a.Reg(BaseRegister(stm)), i)) ==
               Read(StoredMemory(sys.num, m, a, stm, 16), Address(stm, a.Reg(BaseRegister(stm)), i))
    ensures var r := LoadedState(sys, m2, a2, ldm);
            && r.cpsr == a2.cpsr && r.spsr == a2.spsr
            && forall i | 0 <= i < 16 ::
                 r.Reg(i) == if Bit(stm, i) || i == BaseRegister(stm) then a.Reg(i) else a2.Reg(i)
  {
    hide *;
    var rn := BaseRegister(stm);
    var base := a.Reg(rn);
    MirrorBits(stm, ldm);
    BasesAgree(a, stm);
    MirrorAddresses(stm, ldm, base);
    StoredWords(sys.num, m, a, stm, 16, base);
    PlainLoad(sys, m2, a2, ldm);
    forall i | 0 <= i < 16
      ensures LoadedState(sys, m2, a2, ldm).Reg(i) == if Bit(stm, i) || i == rn then a.Reg(i) else a2.Reg(i)
    {
      LoadRegister(sys.num, m2, a2, ldm, i);
      if i != rn && i < 15 {
        PlainValue(sys.num, a, stm, i);
      }
    }
  }

  /** A transfer to the current bank that does not load the program counter. */
  lemma PlainLoad(sys: System, m: Memory, a: Arch, ldm: bv32)
    requires a.Valid() && !UserBank(ldm) && !Bit(ldm, 15)
    ensures var r := LoadedState(sys, m, a, ldm);
            && r == LoadedRegisters(sys.num, m, a, ldm) && r.cpsr == a.cpsr && r.spsr == a.spsr
            && LoadBank(a, ldm) == a.Current() && r.Current() == a.Current()
            && (forall i: nat | i < 16 :: r.Reg(i) == r.RegIn(a.Current(), i) && a.Reg(i) == a.RegIn(a.Current(), i))
            && (LoadWritesBack(sys.num, ldm) <== WritesBack(ldm) && !Bit(ldm, BaseRegister(ldm)))
  {
    hide Bit, Mode, BankOf, UserBank, WritesBack, BaseRegister, LoadedRegisters, Arch.RegIn, Count;
    LoadKeepsStatus(sys.num, m, a, ldm);
  }

  lemma LoadKeepsStatus(num: nat, m: Memory, a: Arch, instr: bv32)
    requires a.Valid()
    ensures var r := LoadedRegisters(num, m, a, instr); r.cpsr == a.cpsr && r.spsr == a.spsr
  {
    hide LoadWritesBack, LoadBank, LoadedFile, BaseRegister, Arch.Reg, End, RegFile.With;
  }

  /** What LDM leaves in each register of the bank it loads: the written-back base, the word at the register's
      address, or what was there. */
  lemma LoadRegister(num: nat, m: Memory, a: Arch, instr: bv32, i: nat)
    requires a.Valid() && i < 16
    ensures var r, b, rn := LoadedRegisters(num, m, a, instr), LoadBank(a, instr), BaseRegister(instr);
            r.RegIn(b, i) ==
            if i == rn && LoadWritesBack(num, instr) then End(instr, a.Reg(rn))
            else if i < 15 && Bit(instr, i) then Read(m, Address(instr, a.Reg(rn), i))
            else a.RegIn(b, i)
  {
    hide Bit, BaseRegister, LoadWritesBack, LoadBank, LoadedFile, Address, End, Read, Arch.Reg, RegFile.With, RegFile.Get;
    var rn, b := BaseRegister(instr), LoadBank(a, instr);
    LoadedWords(m, a, instr, 15);
    if rn < 15 && i < 15 {
      WithGet(LoadedFile(m, a, instr, 15), b, rn, End(instr, a.Reg(rn)), b, i);
    }
  }

  lemma MirrorBits(stm: bv32, ldm: bv32)
    requires Mirrors(stm, ldm)
    ensures WritesBack(stm) && WritesBack(ldm) && !UserBank(stm) && !UserBank(ldm)
    ensures BaseRegister(ldm) == BaseRegister(stm)
    ensures forall i | 0 <= i < 16 :: Bit(ldm, i) == Bit(stm, i)
  {
    hide Bit;
  }

  lemma BasesAgree(a: Arch, stm: bv32)
    requires a.Valid() && WritesBack(stm)
    ensures StoredState(a, stm).Reg(BaseRegister(stm)) == End(stm, a.Reg(BaseRegister(stm)))
    ensures StoredState(a, stm).Current() == a.Current()
  {
    hide Mode, BankOf, WritesBack, End, RegFile.With, RegFile.Get, BaseRegister;
    var rn, b := BaseRegister(stm), a.Current();
    if rn < 15 {
      WithGet(a.file, b, rn, End(stm, a.Reg(rn)), b, rn);
    }
  }

  lemma PlainValue(num: nat, a: Arch, stm: bv32, i: nat)
    requires a.Valid() && i < 15 && i != BaseRegister(stm) && !UserBank(stm)
    ensures StoredValue(num, a, stm, i) == a.Reg(i)
  {
    hide Mode, BankOf, WritesBack, Upwards, UserBank, End, Address, RegFile.With, RegFile.Get, BaseRegister;
    var rn, b := BaseRegister(stm), a.Current();
    if rn < 15 {
      WithGet(a.file, b, rn, End(stm, a.Reg(rn)), b, i);
    }
  }

  // ----- the interpreter -----

  function AsUser(psr: bv32): bv32 { Switched(psr, 0x1F, 0x10) }

  class Bus {
    var words: Memory

    method Read32(addr: bv32) returns (v: bv32)
      ensures v == Read(words, addr)
    {
      v := if Word(addr) in words then words[Word(addr)] else 0;
    }

    method Write32(addr: bv32, v: bv32)
      modifies this
      ensures words == Written(old(words), addr, v)
    {
      words := words[Word(addr) := v];
    }
  }

  /** Where the loops over the registers start: an incrementing transfer at the base, a decrementing one below. */
  function LoopBase(instr: bv32, base: bv32): bv32 {
    if Upwards(instr) then base else Down(base, Count(instr, 16))
  }

  /** Whether the loops step before each access. */
  predicate StepsFirst(instr: bv32) { PreIndexed(instr) == Upwards(instr) }

  lemma LoopAddress(instr: bv32, base: bv32, i: nat)
    requires i < 16
    ensures var at := Up(LoopBase(instr, base), Count(instr, i));
            Address(instr, base, i) == if StepsFirst(instr) then Plus(at, 4) else at
  {
    hide Plus, Upwards, PreIndexed, Count, Down, Up;
    UpStep(LoopBase(instr, base), Count(instr, i));
    UpIs(LoopBase(instr, base), Count(instr, i));
  }

  lemma UpIs(x: bv32, k: nat)
    ensures Up(x, k + 1) == Plus(Up(x, k), 4)
  {
  }

  method A_STM(cpu: ARM, bus: Bus, instr: bv32)
    requires cpu.Valid()
    modifies bus, cpu, cpu.R, cpu.R_FIQ, cpu.R_SVC, cpu.R_ABT, cpu.R_IRQ, cpu.R_UND
    ensures cpu.Valid() && cpu.Abs() == StoredState(old(cpu.Abs()), instr)
    ensures bus.words == StoredMemory(cpu.sys.num, old(bus.words), old(cpu.Abs()), instr, 16)
  {
    hide Mode, BankOf, Count, Up, Down, StoredMemory, BaseIsBanked, BaseRegister, WritesBack, Upwards, PreIndexed, UserBank,
         ARM.Holds, Arch.Bit4Set, Arch.RegIn, Arch.WithRegIn, Arrays.File, Arrays.Spsrs, System.VectorsAligned;
    ghost var a := cpu.Abs();
    var baseid := BaseRegister(instr);
    var base := cpu.GetR(baseid);
    var oldbase := base;
    var preinc := PreIndexed(instr);
    if !Upwards(instr) {
      base := Down(base, Count(instr, 16));
      if WritesBack(instr) {
        cpu.SetR(baseid, base);
      }
      preinc := !preinc;
    }
    ghost var source := cpu.Abs();
    cpu.ValidHolds();
    base := StoreFromBank(cpu, bus, instr, base, oldbase, preinc, a);
    cpu.HoldsIsValid(source);
    if Upwards(instr) && WritesBack(instr) {
      cpu.SetR(baseid, base);
    }
  }

  method StoreFromBank(cpu: ARM, bus: Bus, instr: bv32, start: bv32, oldbase: bv32, preinc: bool, ghost a: Arch)
    returns (base: bv32)
    requires a.Valid() && cpu.Holds(StoreSource(a, instr), a.Current()) && cpu.CPSR == a.cpsr
    requires oldbase == a.Reg(BaseRegister(instr)) && start == LoopBase(instr, oldbase)
    requires preinc == StepsFirst(instr)
    modifies bus, cpu, cpu.R, cpu.R_FIQ, cpu.R_SVC, cpu.R_ABT, cpu.R_IRQ, cpu.R_UND
    ensures cpu.Holds(StoreSource(a, instr), a.Current()) && cpu.CPSR == a.cpsr
    ensures bus.words == StoredMemory(cpu.sys.num, old(bus.words), a, instr, 16)
    ensures base == Up(LoopBase(instr, oldbase), Count(instr, 16))
  {
    hide *;
    ghost var source := StoreSource(a, instr);
    StoreBanks(a, instr);
    var isbanked := BaseIsBanked(instr, cpu.CPSR);
    if UserBank(instr) {
      cpu.ShowBank(cpu.CPSR, AsUser(cpu.CPSR), source);
    }
    base := StoreList(cpu, bus, instr, start, oldbase, preinc, isbanked, a);
    if UserBank(instr) {
      cpu.ShowBank(AsUser(cpu.CPSR), cpu.CPSR, source);
    }
  }

  lemma StoreBanks(a: Arch, instr: bv32)
    ensures BankOf(Mode(AsUser(a.cpsr))) == Usr && BankOf(Mode(a.cpsr)) == a.Current()
    ensures StoreBank(a, instr) == if UserBank(instr) then Usr else a.Current()
  {
  }

  method StoreList(cpu: ARM, bus: Bus, instr: bv32, start: bv32, oldbase: bv32, preinc: bool, isbanked: bool, ghost a: Arch)
    returns (base: bv32)
    requires a.Valid() && cpu.Holds(StoreSource(a, instr), StoreBank(a, instr))
    requires oldbase == a.Reg(BaseRegister(instr)) && start == LoopBase(instr, oldbase)
    requires preinc == StepsFirst(instr) && isbanked == BaseIsBanked(instr, a.cpsr)
    modifies bus
    ensures bus.words == StoredMemory(cpu.sys.num, old(bus.words), a, instr, 16)
    ensures base == Up(LoopBase(instr, oldbase), Count(instr, 16))
  {
    hide *;
    var rn := BaseRegister(instr);
    base := start;
    StoredNone(cpu.sys.num, bus.words, a, instr);
    for i := 0 to 16
      invariant base == Up(LoopBase(instr, oldbase), Count(instr, i))
      invariant bus.words == StoredMemory(cpu.sys.num, old(bus.words), a, instr, i)
    {
      CountStep(instr, i);
      StoredStep(cpu.sys.num, old(bus.words), a, instr, i);
      if Bit(instr, i) {
        LoopAddress(instr, oldbase, i);
        UpIs(LoopBase(instr, oldbase), Count(instr, i));
        StoredValueIs(cpu.sys.num, a, instr, i);
        if preinc { base := Plus(base, 4); }
        var v: bv32;
        if i == rn && !isbanked {
          v := if cpu.sys.num == 0 || Count(instr, i) == 0 then oldbase else base;
        } else {
          v := cpu.GetRIn(i, StoreSource(a, instr), StoreBank(a, instr));
        }
        bus.Write32(base, v);
        if !preinc { base := Plus(base, 4); }
      }
    }
  }

  lemma CountStep(instr: bv32, i: nat)
    requires i < 16
    ensures Count(instr, 0) == 0
    ensures Count(instr, i + 1) == Count(instr, i) + if Bit(instr, i) then 1 else 0
  {
  }

  lemma StoredNone(num: nat, m: Memory, a: Arch, instr: bv32)
    requires a.Valid()
    ensures StoredMemory(num, m, a, instr, 0) == m && Count(instr, 0) == 0
    ensures forall x :: Up(x, 0) == x
  {
  }

  lemma StoredStep(num: nat, m: Memory, a: Arch, instr: bv32, i: nat)
    requires a.Valid() && i < 16
    ensures StoredMemory(num, m, a, instr, i + 1) ==
            var before := StoredMemory(num, m, a, instr, i);
            if !Bit(instr, i) then before
            else Written(before, Address(instr, a.Reg(BaseRegister(instr)), i), StoredValue(num, a, instr, i))
  {
  }

  lemma StoredValueIs(num: nat, a: Arch, instr: bv32, i: nat)
    requires a.Valid() && i < 16
    ensures StoredValue(num, a, instr, i) ==
            var rn := BaseRegister(instr);
            if i == rn && !BaseIsBanked(instr, a.cpsr) then
              (if num == 0 || Count(instr, i) == 0 then a.Reg(rn) else Address(instr, a.Reg(rn), i))
            else StoreSource(a, instr).RegIn(StoreBank(a, instr), i)
  {
  }

  method A_LDM(cpu: ARM, bus: Bus, instr: bv32)
    requires cpu.Valid()
    modifies cpu, cpu.R, cpu.R_FIQ, cpu.R_SVC, cpu.R_ABT, cpu.R_IRQ, cpu.R_UND
    ensures cpu.Valid() && cpu.Abs() == LoadedState(cpu.sys, bus.words, old(cpu.Abs()), instr)
  {
    hide Mode, BankOf, Count, Up, Down, Read, Address, LoadedRegisters, BaseRegister, Upwards, PreIndexed, UserBank, Bit, LoadBank,
         ARM.Holds, Arch.Bit4Set, Arch.RegIn, Arrays.File, Arrays.Spsrs, System.VectorsAligned, Jump, JumpRestoring;
    ghost var a := cpu.Abs();
    cpu.ValidHolds();
    var baseid := BaseRegister(instr);
    var oldbase := cpu.GetR(baseid);
    var base := oldbase;
    var preinc := PreIndexed(instr);
    if !Upwards(instr) {
      base := Down(base, Count(instr, 16));
      preinc := !preinc;
    }
    var pc := LoadIntoBank(cpu, bus, instr, base, oldbase, preinc, a);
    LoadedCurrent(cpu.sys.num, bus.words, a, instr);
    cpu.HoldsIsValid(LoadedRegisters(cpu.sys.num, bus.words, a, instr));
    if Bit(instr, 15) {
      cpu.JumpTo(pc, UserBank(instr));
    }
  }

  lemma LoadedCurrent(num: nat, m: Memory, a: Arch, instr: bv32)
    requires a.Valid()
    ensures LoadedRegisters(num, m, a, instr).Current() == a.Current()
  {
    hide Mode, BankOf, LoadedRegisters;
    LoadKeepsStatus(num, m, a, instr);
  }

  method LoadIntoBank(cpu: ARM, bus: Bus, instr: bv32, start: bv32, oldbase: bv32, preinc: bool, ghost a: Arch)
    returns (pc: bv32)
    requires a.Valid() && cpu.Holds(a, a.Current()) && cpu.CPSR == a.cpsr
    requires oldbase == a.Reg(BaseRegister(instr)) && start == LoopBase(instr, oldbase) && preinc == StepsFirst(instr)
    modifies cpu, cpu.R, cpu.R_FIQ, cpu.R_SVC, cpu.R_ABT, cpu.R_IRQ, cpu.R_UND
    ensures cpu.Holds(LoadedRegisters(cpu.sys.num, bus.words, a, instr), a.Current())
    ensures Bit(instr, 15) ==> pc == LoadedPc(cpu.sys.num, Read(bus.words, Address(instr, oldbase, 15)))
  {
    hide *;
    LoadBanks(a, instr);
    ghost var m := bus.words;
    if UserBank(instr) && !Bit(instr, 15) {
      cpu.ShowBank(cpu.CPSR, AsUser(cpu.CPSR), a);
    }
    var base := LoadList(cpu, bus, instr, start, oldbase, preinc, a);
    pc, base := LoadPc(cpu.sys.num, bus, instr, base, oldbase, preinc);
    LoadedRegistersAre(cpu.sys.num, m, a, instr);
    if LoadWritesBack(cpu.sys.num, instr) {
      var wbbase := if Upwards(instr) then base else start;
      cpu.SetRIn(BaseRegister(instr), wbbase, Loaded(m, a, instr), LoadBank(a, instr));
    }
    if UserBank(instr) && !Bit(instr, 15) {
      cpu.ShowBank(AsUser(cpu.CPSR), cpu.CPSR, LoadedRegisters(cpu.sys.num, m, a, instr));
    }
  }

  method LoadPc(num: nat, bus: Bus, instr: bv32, start: bv32, oldbase: bv32, preinc: bool) returns (pc: bv32, base: bv32)
    requires start == Up(LoopBase(instr, oldbase), Count(instr, 15)) && preinc == StepsFirst(instr)
    ensures Bit(instr, 15) ==> pc == LoadedPc(num, Read(bus.words, Address(instr, oldbase, 15)))
    ensures End(instr, oldbase) == if Upwards(instr) then base else LoopBase(instr, oldbase)
  {
    hide *;
    base := start;
    pc := 0;
    LoadEnd(instr, oldbase);
    if Bit(instr, 15) {
      if preinc { base := Plus(base, 4); }
      pc := bus.Read32(base);
      if !preinc { base := Plus(base, 4); }
      pc := LoadedPc(num, pc);
    }
  }

  ghost function Loaded(m: Memory, a: Arch, instr: bv32): (r: Arch)
    requires a.Valid()
    ensures r.Valid()
  {
    a.(file := LoadedFile(m, a, instr, 15))
  }

  lemma LoadedRegistersAre(num: nat, m: Memory, a: Arch, instr: bv32)
    requires a.Valid()
    ensures var rn := BaseRegister(instr);
            LoadedRegisters(num, m, a, instr) ==
            if LoadWritesBack(num, instr) then Loaded(m, a, instr).WithRegIn(LoadBank(a, instr), rn, End(instr, a.Reg(rn)))
            else Loaded(m, a, instr)
  {
  }

  lemma LoadBanks(a: Arch, instr: bv32)
    ensures BankOf(Mode(AsUser(a.cpsr))) == Usr && BankOf(Mode(a.cpsr)) == a.Current()
    ensures LoadBank(a, instr) == if UserBank(instr) && !Bit(instr, 15) then Usr else a.Current()
  {
  }

  /** Where the loop over registers 0 to 14 leaves the base, and where the transfer of all of them does. */
  lemma LoadEnd(instr: bv32, base: bv32)
    ensures var at := Up(LoopBase(instr, base), Count(instr, 15));
            && Address(instr, base, 15) == (if StepsFirst(instr) then Plus(at, 4) else at)
            && End(instr, base) == if !Upwards(instr) then LoopBase(instr, base) else if Bit(instr, 15) then Plus(at, 4) else at
  {
    hide Plus, Bit, StepsFirst, Address;
    LoopAddress(instr, base, 15);
    UpIs(LoopBase(instr, base), Count(instr, 15));
  }

  method LoadList(cpu: ARM, bus: Bus, instr: bv32, start: bv32, oldbase: bv32, preinc: bool, ghost a: Arch)
    returns (base: bv32)
    requires a.Valid() && cpu.Holds(a, LoadBank(a, instr)) && cpu.CPSR == a.cpsr
    requires oldbase == a.Reg(BaseRegister(instr)) && start == LoopBase(instr, oldbase) && preinc == StepsFirst(instr)
    modifies cpu.R
    ensures cpu.Holds(Loaded(bus.words, a, instr), LoadBank(a, instr))
    ensures base == Up(LoopBase(instr, oldbase), Count(instr, 15))
  {
    hide *;
    ghost var m := bus.words;
    base := start;
    LoadedNone(m, a, instr);
    for i := 0 to 15
      invariant base == Up(LoopBase(instr, oldbase), Count(instr, i))
      invariant LoadedFile(m, a, instr, i).Valid()
      invariant cpu.Holds(a.(file := LoadedFile(m, a, instr, i)), LoadBank(a, instr))
    {
      CountStep(instr, i);
      LoadedStep(m, a, instr, i);
      if Bit(instr, i) {
        LoopAddress(instr, oldbase, i);
        UpIs(LoopBase(instr, oldbase), Count(instr, i));
        if preinc { base := Plus(base, 4); }
        var v := bus.Read32(base);
        cpu.SetRIn(i, v, a.(file := LoadedFile(m, a, instr, i)), LoadBank(a, instr));
        if !preinc { base := Plus(base, 4); }
      }
    }
    LoadedAll(m, a, instr);
  }

  lemma LoadedNone(m: Memory, a: Arch, instr: bv32)
    requires a.Valid()
    ensures a.(file := LoadedFile(m, a, instr, 0)) == a && Count(instr, 0) == 0
    ensures forall x :: Up(x, 0) == x
  {
  }

  lemma LoadedAll(m: Memory, a: Arch, instr: bv32)
    requires a.Valid()
    ensures Loaded(m, a, instr) == a.(file := LoadedFile(m, a, instr, 15))
  {
  }

  lemma LoadedStep(m: Memory, a: Arch, instr: bv32, i: nat)
    requires a.Valid() && i < 15
    ensures var before := a.(file := LoadedFile(m, a, instr, i));
            a.(file := LoadedFile(m, a, instr, i + 1)) ==
            if !Bit(instr, i) then before
            else before.WithRegIn(LoadBank(a, instr), i, Read(m, Address(instr, a.Reg(BaseRegister(instr)), i)))
  {
  }

  // ----- PUSH and POP -----

  /** PUSH is STMDB r13!, with r14 for bit 8. */
  function PushAsStm(instr: bv32): bv32 { (instr & 0xFF) | ((instr & 0x100) << 6) | 0x012D0000 }

  /** POP is LDMIA r13!, with the program counter for bit 8. */
  function PopAsLdm(instr: bv32): bv32 { (instr & 0xFF) | ((instr & 0x100) << 7) | 0x00AD0000 }

  lemma PushBits(instr: bv32, i: nat)
    requires i < 16
    ensures Bit(PushAsStm(instr), i) == (if i < 8 then Bit(instr, i) else i == 14 && Bit(instr, 8))
  {
  }

  lemma PopBits(instr: bv32, i: nat)
    requires i < 16
    ensures Bit(PopAsLdm(instr), i) == (if i < 8 then Bit(instr, i) else i == 15 && Bit(instr, 8))
  {
  }

  lemma PushMode(instr: bv32)
    ensures var p := PushAsStm(instr);
            !Upwards(p) && PreIndexed(p) && WritesBack(p) && !UserBank(p) && BaseRegister(p) == 13
  {
  }

  lemma PopMode(instr: bv32)
    ensures var p := PopAsLdm(instr);
            Upwards(p) && !PreIndexed(p) && WritesBack(p) && !UserBank(p) && BaseRegister(p) == 13
  {
  }

  lemma {:induction false} ThumbCount(instr: bv32, hi: nat)
    requires hi <= 16
    ensures Count(PushAsStm(instr), hi) == Count(PopAsLdm(instr), hi) + if hi == 15 && Bit(instr, 8) then 1 else 0
    ensures Count(PopAsLdm(instr), hi) ==
            if hi <= 8 then Count(instr, hi) else Count(instr, 8) + if hi == 16 && Bit(instr, 8) then 1 else 0
  {
    hide Bit, PushAsStm, PopAsLdm;
    if hi > 0 {
      ThumbCount(instr, hi - 1);
      PushBits(instr, hi - 1);
      PopBits(instr, hi - 1);
    }
  }

  /** Both transfer as many words as the instruction has bits 0 to 8 set. */
  lemma ThumbCounts(instr: bv32, p: bv32)
    requires p == PushAsStm(instr) || p == PopAsLdm(instr)
    ensures Count(p, 16) == Count(instr, 9)
    ensures forall i | 0 <= i <= 8 :: Count(p, i) == Count(instr, i)
    ensures Count(PushAsStm(instr), 14) == Count(instr, 8) && Count(PopAsLdm(instr), 15) == Count(instr, 8)
  {
    hide Bit, PushAsStm, PopAsLdm, Count;
    CountStep(instr, 8);
    ThumbCount(instr, 14);
    ThumbCount(instr, 15);
    ThumbCount(instr, 16);
    forall i | 0 <= i <= 8 ensures Count(p, i) == Count(instr, i) { ThumbCount(instr, i); }
  }

  lemma PushAddress(instr: bv32, sp: bv32, i: nat)
    requires i < 16
    ensures Address(PushAsStm(instr), sp, i) == Up(Down(sp, Count(instr, 9)), Count(PushAsStm(instr), i))
    ensures End(PushAsStm(instr), sp) == Down(sp, Count(instr, 9))
  {
    hide Bit, PushAsStm, Count, Up, Down, Upwards, PreIndexed;
    PushMode(instr);
    ThumbCounts(instr, PushAsStm(instr));
  }

  /** The registers above 7 that PUSH does not store make no difference. */
  lemma {:induction false} PushSkips(num: nat, m: Memory, a: Arch, instr: bv32, hi: nat)
    requires a.Valid() && 8 <= hi <= 14
    ensures StoredMemory(num, m, a, PushAsStm(instr), hi) == StoredMemory(num, m, a, PushAsStm(instr), 8)
  {
    hide Bit, PushAsStm, Address, StoredValue, BaseRegister, Arch.Reg, Written;
    if hi > 8 {
      PushSkips(num, m, a, instr, hi - 1);
      PushBits(instr, hi - 1);
    }
  }

  lemma PushEnds(num: nat, m: Memory, a: Arch, instr: bv32)
    requires a.Valid()
    ensures var p := PushAsStm(instr);
            var low := StoredMemory(num, m, a, p, 8);
            StoredMemory(num, m, a, p, 16) ==
            if !Bit(instr, 8) then low
            else Written(low, Up(Down(a.Reg(13), Count(instr, 9)), Count(instr, 8)), a.Reg(14))
  {
    hide *;
    var p := PushAsStm(instr);
    PushSkips(num, m, a, instr, 14);
    StoredStep(num, m, a, p, 14);
    StoredStep(num, m, a, p, 15);
    PushBits(instr, 14);
    PushBits(instr, 15);
    PushMode(instr);
    ThumbCounts(instr, p);
    PushAddress(instr, a.Reg(13), 14);
    PlainValue(num, a, p, 14);
  }

  method T_PUSH(cpu: ARM, bus: Bus, instr: bv32)
    requires cpu.Valid()
    modifies bus, cpu, cpu.R, cpu.R_FIQ, cpu.R_SVC, cpu.R_ABT, cpu.R_IRQ, cpu.R_UND
    ensures cpu.Valid() && cpu.Abs() == StoredState(old(cpu.Abs()), PushAsStm(instr))
    ensures bus.words == StoredMemory(cpu.sys.num, old(bus.words), old(cpu.Abs()), PushAsStm(instr), 16)
  {
    hide *;
    cpu.ValidHolds();
    ghost var a, num, m := cpu.Abs(), cpu.sys.num, bus.words;
    var p := PushAsStm(instr);
    PushMode(instr);
    var base := cpu.GetR(13);
    PushAddress(instr, base, 0);
    base := Down(base, Count(instr, 9));
    cpu.SetR(13, base);
    PushedState(a, p);
    StoredNone(num, m, a, p);
    ThumbCounts(instr, p);
    for i := 0 to 8
      modifies bus
      invariant cpu.Valid() && cpu.Abs() == StoredState(a, p)
      invariant base == Up(Down(a.Reg(13), Count(instr, 9)), Count(p, i))
      invariant bus.words == StoredMemory(num, m, a, p, i)
    {
      CountStep(p, i);
      StoredStep(num, m, a, p, i);
      PushBits(instr, i);
      if Bit(instr, i) {
        PushAddress(instr, a.Reg(13), i);
        PlainValue(num, a, p, i);
        PushedRegister(a, p, i);
        var v := cpu.GetR(i);
        bus.Write32(base, v);
        UpIs(Down(a.Reg(13), Count(instr, 9)), Count(p, i));
        base := Plus(base, 4);
      }
    }
    PushEnds(num, m, a, instr);
    if Bit(instr, 8) {
      PushedRegister(a, p, 14);
      var lr := cpu.GetR(14);
      bus.Write32(base, lr);
    }
  }

  lemma PushedState(a: Arch, p: bv32)
    requires a.Valid() && WritesBack(p) && BaseRegister(p) == 13
    ensures StoredState(a, p) == a.WithRegIn(a.Current(), 13, End(p, a.Reg(13)))
  {
  }

  lemma PushedRegister(a: Arch, p: bv32, i: nat)
    requires a.Valid() && WritesBack(p) && BaseRegister(p) == 13 && i < 15 && i != 13
    ensures StoredState(a, p).Reg(i) == a.Reg(i)
  {
    hide Mode, BankOf, WritesBack, End, RegFile.With, RegFile.Get, BaseRegister;
    WithGet(a.file, a.Current(), 13, End(p, a.Reg(13)), a.Current(), i);
  }

  function PoppedPc(num: nat, pc: bv32): bv32 { if num == 1 then pc | 1 else pc }

  /** A POP of the program counter jumps before it writes the stack pointer back. */
  function PoppedState(sys: System, m: Memory, a: Arch, instr: bv32): (r: Arch)
    requires a.Valid()
    ensures r.Valid()
  {
    var l := PopAsLdm(instr);
    if !Bit(instr, 8) then LoadedState(sys, m, a, l)
    else
      var r := Jump(sys, a.(file := LoadedFile(m, a, l, 15)), PoppedPc(sys.num, Read(m, Address(l, a.Reg(13), 15))));
      r.WithRegIn(r.Current(), 13, End(l, a.Reg(13)))
  }

  lemma PopAddress(instr: bv32, sp: bv32, i: nat)
    requires i < 16
    ensures Address(PopAsLdm(instr), sp, i) == Up(sp, Count(PopAsLdm(instr), i))
    ensures End(PopAsLdm(instr), sp) == Up(sp, Count(instr, 9))
    ensures Count(instr, 9) == Count(instr, 8) + if Bit(instr, 8) then 1 else 0
  {
    hide Bit, PopAsLdm, Count, Up, Down, Upwards, PreIndexed;
    PopMode(instr);
    ThumbCounts(instr, PopAsLdm(instr));
    CountStep(instr, 8);
  }

  lemma {:induction false} PopSkips(m: Memory, a: Arch, instr: bv32, hi: nat)
    requires a.Valid() && 8 <= hi <= 15
    ensures LoadedFile(m, a, PopAsLdm(instr), hi) == LoadedFile(m, a, PopAsLdm(instr), 8)
  {
    hide Bit, PopAsLdm, Address, BaseRegister, Arch.Reg, Read, RegFile.With;
    if hi > 8 {
      PopSkips(m, a, instr, hi - 1);
      PopBits(instr, hi - 1);
    }
  }

  lemma PoppedWithoutPc(sys: System, m: Memory, a: Arch, instr: bv32)
    requires a.Valid() && !Bit(instr, 8)
    ensures PoppedState(sys, m, a, instr) ==
            Loaded(m, a, PopAsLdm(instr)).WithRegIn(a.Current(), 13, End(PopAsLdm(instr), a.Reg(13)))
  {
    hide Bit, PopAsLdm, Mode, BankOf, WritesBack, BaseRegister, UserBank, Count, End, LoadedFile, RegFile.With, RegFile.Get;
    PopMode(instr);
    PopBits(instr, 13);
    PopBits(instr, 15);
  }

  method T_POP(cpu: ARM, bus: Bus, instr: bv32)
    requires cpu.Valid()
    modifies cpu, cpu.R, cpu.R_FIQ, cpu.R_SVC, cpu.R_ABT, cpu.R_IRQ, cpu.R_UND
    ensures cpu.Valid() && cpu.Abs() == PoppedState(cpu.sys, bus.words, old(cpu.Abs()), instr)
  {
    hide *;
    cpu.ValidHolds();
    ghost var a, m, l := cpu.Abs(), bus.words, PopAsLdm(instr);
    PopMode(instr);
    var base := cpu.GetR(13);
    ghost var sp := base;
    LoadedNone(m, a, l);
    ThumbCounts(instr, l);
    for i := 0 to 8
      modifies cpu.R
      invariant base == Up(sp, Count(l, i)) && LoadedFile(m, a, l, i).Valid()
      invariant cpu.Holds(a.(file := LoadedFile(m, a, l, i)), a.Current())
    {
      CountStep(l, i);
      LoadedStep(m, a, l, i);
      PopBits(instr, i);
      PopBank(a, instr);
      if Bit(instr, i) {
        PopAddress(instr, sp, i);
        UpIs(sp, Count(l, i));
        var v := bus.Read32(base);
        cpu.SetRIn(i, v, a.(file := LoadedFile(m, a, l, i)), a.Current());
        base := Plus(base, 4);
      }
    }
    PopSkips(m, a, instr, 15);
    LoadedAll(m, a, l);
    PopAddress(instr, sp, 15);
    LoadedStatus(m, a, l);
    cpu.HoldsIsValid(Loaded(m, a, l));
    if Bit(instr, 8) {
      var pc := bus.Read32(base);
      cpu.JumpTo(PoppedPc(cpu.sys.num, pc), false);
      UpIs(sp, Count(instr, 8));
      base := Plus(base, 4);
      PoppedWithPc(cpu.sys, m, a, instr);
    } else {
      PoppedWithoutPc(cpu.sys, m, a, instr);
    }
    cpu.SetR(13, base);
  }

  lemma PopBank(a: Arch, instr: bv32)
    ensures LoadBank(a, PopAsLdm(instr)) == a.Current() && BaseRegister(PopAsLdm(instr)) == 13
  {
    hide Bit, PopAsLdm, UserBank, BaseRegister;
    PopMode(instr);
  }

  lemma LoadedStatus(m: Memory, a: Arch, instr: bv32)
    requires a.Valid()
    ensures Loaded(m, a, instr).Current() == a.Current()
  {
  }

  lemma PoppedWithPc(sys: System, m: Memory, a: Arch, instr: bv32)
    requires a.Valid() && Bit(instr, 8)
    ensures var l := PopAsLdm(instr);
            var r := Jump(sys, Loaded(m, a, l), PoppedPc(sys.num, Read(m, Address(l, a.Reg(13), 15))));
            PoppedState(sys, m, a, instr) == r.WithRegIn(r.Current(), 13, End(l, a.Reg(13)))
  {
  }


  lemma SamePopCounts(push: bv32, pop: bv32)
    requires forall i | 0 <= i < 9 :: Bit(push, i) == Bit(pop, i)
    ensures Count(pop, 9) == Count(push, 9) && Count(PopAsLdm(pop), 15) == Count(PushAsStm(push), 14)
    ensures forall i | 0 <= i <= 8 :: Count(PopAsLdm(pop), i) == Count(PushAsStm(push), i)
  {
    hide Bit, PushAsStm, PopAsLdm, Count;
    ThumbCounts(push, PushAsStm(push));
    ThumbCounts(pop, PopAsLdm(pop));
    forall i | 0 <= i <= 9 ensures Count(pop, i) == Count(push, i) { SamePrefixCount(push, pop, i); }
  }

  lemma {:induction false} SamePrefixCount(instr: bv32, other: bv32, hi: nat)
    requires hi <= 9 && forall i | 0 <= i < 9 :: Bit(instr, i) == Bit(other, i)
    ensures Count(instr, hi) == Count(other, hi)
  {
    hide Bit;
    if hi > 0 {
      SamePrefixCount(instr, other, hi - 1);
    }
  }

  /** The jump of a POP that loads the program counter arrives. */
  predicate PopLands(sys: System, m: Memory, a: Arch, pop: bv32)
    requires a.Valid()
  {
    Bit(pop, 8) ==> sys.CanFetch(a.cpsr, Target(PoppedPc(sys.num, Read(m, Address(PopAsLdm(pop), a.Reg(13), 15)))))
  }

  lemma LandsWell(sys: System, a: Arch, addr: bv32)
    requires a.Valid() && sys.CanFetch(a.cpsr, Target(addr))
    ensures Jump(sys, a, addr) == Land(a, addr) && Mode(Land(a, addr).cpsr) == Mode(a.cpsr)
  {
    hide Mode, WithThumb, ToThumb, Target, PcAt, PrefetchAborted;
    StateBitKeepsMode(a.cpsr, ToThumb(addr));
  }

  lemma PoppedStatus(sys: System, m: Memory, a: Arch, pop: bv32)
    requires a.Valid() && PopLands(sys, m, a, pop)
    ensures var r, pc := PoppedState(sys, m, a, pop), PoppedPc(sys.num, Read(m, Address(PopAsLdm(pop), a.Reg(13), 15)));
            && r.spsr == a.spsr && Mode(r.cpsr) == Mode(a.cpsr)
            && r.pc == (if Bit(pop, 8) then PcAt(pc) else a.pc)
            && r.cpsr == (if Bit(pop, 8) then WithThumb(a.cpsr, ToThumb(pc)) else a.cpsr)
            && r.file == LoadedFile(m, a, PopAsLdm(pop), 15).With(a.Current(), 13, End(PopAsLdm(pop), a.Reg(13)))
  {
    hide Bit, Mode, BankOf, WithThumb, ToThumb, Target, PcAt, Jump, Read, Address, PopAsLdm, PoppedPc, LoadedFile, Arch.Reg, End,
         System.CanFetch, RegFile.With, PoppedState;
    if Bit(pop, 8) {
      JumpedStatus(sys, m, a, pop);
    } else {
      PoppedWithoutPc(sys, m, a, pop);
    }
  }

  lemma JumpedStatus(sys: System, m: Memory, a: Arch, pop: bv32)
    requires a.Valid() && PopLands(sys, m, a, pop) && Bit(pop, 8)
    ensures var pc := PoppedPc(sys.num, Read(m, Address(PopAsLdm(pop), a.Reg(13), 15)));
            var r := Land(Loaded(m, a, PopAsLdm(pop)), pc);
            && PoppedState(sys, m, a, pop) == r.WithRegIn(a.Current(), 13, End(PopAsLdm(pop), a.Reg(13)))
            && Mode(r.cpsr) == Mode(a.cpsr)
  {
    hide Bit, Mode, BankOf, WithThumb, ToThumb, Target, PcAt, Jump, Read, Address, PopAsLdm, PoppedPc, LoadedFile, Arch.Reg, End,
         System.CanFetch, PoppedState, Arch.WithRegIn;
    LandsWell(sys, Loaded(m, a, PopAsLdm(pop)), PoppedPc(sys.num, Read(m, Address(PopAsLdm(pop), a.Reg(13), 15))));
    PoppedWithPc(sys, m, a, pop);
  }

  lemma PopLandsWhere(sys: System, m: Memory, a: Arch, pop: bv32)
    requires a.Valid()
    requires !Bit(pop, 8) || sys.CanFetch(a.cpsr, Target(PoppedPc(sys.num, Read(m, Address(PopAsLdm(pop), a.Reg(13), 15)))))
    ensures PopLands(sys, m, a, pop)
  {
  }

  lemma PoppedRegister(sys: System, m: Memory, a: Arch, pop: bv32, i: nat)
    requires a.Valid() && PopLands(sys, m, a, pop) && i < 15
    ensures PoppedState(sys, m, a, pop).Reg(i) ==
            if i == 13 then End(PopAsLdm(pop), a.Reg(13))
            else if i < 8 && Bit(pop, i) then Read(m, Address(PopAsLdm(pop), a.Reg(13), i)) else a.Reg(i)
  {
    hide Bit, Mode, BankOf, Read, Address, PopAsLdm, LoadedFile, End, RegFile.With, RegFile.Get, PoppedState, PopLands, LoadBank,
         BaseRegister;
    var l := PopAsLdm(pop);
    PoppedStatus(sys, m, a, pop);
    PopBank(a, pop);
    LoadedWords(m, a, l, 15);
    PopBits(pop, i);
    WithGet(LoadedFile(m, a, l, 15), a.Current(), 13, End(l, a.Reg(13)), a.Current(), i);
  }

  /** PUSH and POP of the same list without and with return: listed registers, stack pointer, and a jump to the
      pushed return address. Whatever ran in between kept the stack pointer and the words of the block. */
  lemma PushPopReturns(sys: System, m: Memory, a: Arch, push: bv32, m2: Memory, a2: Arch, pop: bv32)
    requires a.Valid() && a2.Valid() && a2.Current() == a.Current()
    requires forall i | 0 <= i < 9 :: Bit(push, i) == Bit(pop, i)
    requires a2.Reg(13) == StoredState(a, PushAsStm(push)).Reg(13)
    requires forall i | 0 <= i < 16 && Bit(PushAsStm(push), i) ::
               Read(m2, Address(PushAsStm(push), a.Reg(13), i)) ==
               Read(StoredMemory(sys.num, m, a, PushAsStm(push), 16), Address(PushAsStm(push), a.Reg(13), i))
    requires Bit(push, 8) ==> sys.CanFetch(a2.cpsr, Target(PoppedPc(sys.num, a.Reg(14))))
    ensures var r := PoppedState(sys, m2, a2, pop);
            && (forall i | 0 <= i < 15 :: r.Reg(i) == if (i < 8 && Bit(push, i)) || i == 13 then a.Reg(i) else a2.Reg(i))
            && r.spsr == a2.spsr && Mode(r.cpsr) == Mode(a2.cpsr)
            && (Bit(push, 8) ==> var lr := PoppedPc(sys.num, a.Reg(14));
                                 r.pc == PcAt(lr) && r.cpsr == WithThumb(a2.cpsr, ToThumb(lr)))
            && (!Bit(push, 8) ==> r.pc == a2.pc && r.cpsr == a2.cpsr)
  {
    hide *;
    var stm, ldm, sp, num := PushAsStm(push), PopAsLdm(pop), a.Reg(13), sys.num;
    PushMode(push);
    BasesAgree(a, stm);
    PushAddress(push, sp, 14);
    SamePopCounts(push, pop);
    StoredWords(num, m, a, stm, 16, sp);
    forall i | 0 <= i < 8 && Bit(push, i)
      ensures Read(m2, Address(ldm, a2.Reg(13), i)) == a.Reg(i)
    {
      PushAddress(push, sp, i);
      PopAddress(pop, a2.Reg(13), i);
      PushBits(push, i);
      PlainValue(num, a, stm, i);
    }
    PopAddress(pop, a2.Reg(13), 15);
    DownUp(sp, Count(push, 9));
    if Bit(push, 8) {
      PushBits(push, 14);
      PlainValue(num, a, stm, 14);
    }
    PopLandsWhere(sys, m2, a2, pop);
    PoppedStatus(sys, m2, a2, pop);
    forall i | 0 <= i < 15
      ensures PoppedState(sys, m2, a2, pop).Reg(i) == if (i < 8 && Bit(push, i)) || i == 13 then a.Reg(i) else a2.Reg(i)
    {
      PoppedRegister(sys, m2, a2, pop, i);
    }
  }
}
