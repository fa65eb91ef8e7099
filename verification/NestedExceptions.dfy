/**
  Exceptions in exceptions: a handler that ends in the matching SUBS pc, lr leaves no trace but the
  link register and the saved status of the modes that were entered, and the registers it has written.
*/
module NestedExceptions {
  import opened ArmState
  import opened BankedRegisters

  /** What an entry to the mode of bank `b` overwrites. */
  function Overwritten(b: Bank): set<Place> { {Register(b, 14), Saved(b)} }

  /** What a step leaves changed, begun in a mode of bank `b`: the registers that are written, and what entries
      overwrite. */
  function Changes(s: Step, b: Bank): set<Place> {
    match s
    case Write(k, _) => {PlaceOf(b, k)}
    case Raise(k, handler, _) => Overwritten(BankFor(k)) + ChangesOf(handler, BankFor(k))
    case _ => {}
  }

  function ChangesOf(steps: seq<Step>, b: Bank): set<Place> {
    if steps == [] then {} else Changes(steps[0], b) + ChangesOf(steps[1..], b)
  }

  /** The mode an exception is handled in. */
  function HandlerMode(k: Kind): bv32 {
    match k case SoftwareInterrupt => 0x13 case Undefined => 0x1B case Interrupt => 0x12 case DataAbt => 0x17
  }

  /** A handler neither enters its own mode again nor leaves it by MSR, and writes neither its link register nor a
      saved status of its own accord. */
  predicate Nested(s: Step, mode: bv32) {
    match s
    case Advance => true
    case Write(k, _) => k < 15
    case Msr(instr, val) => KeepsMode(instr, val, mode)
    case Branch(_) => true
    case Raise(k, handler, _) =>
      ChangesOf(handler, BankFor(k)) !! Overwritten(BankFor(k)) && NestedAll(handler, HandlerMode(k))
  }

  predicate NestedAll(steps: seq<Step>, mode: bv32) {
    forall s <- steps :: Nested(s, mode)
  }

  predicate KeepsMode(instr: bv32, val: bv32, mode: bv32) {
    !ToSaved(instr) && (instr & 0x10000 == 0 || mode == 0x10 || Mode(val | 0x10) == mode)
  }

  /** Where the instruction is that runs when the handler has returned. */
  function ReturnAddress(a: Arch, k: Kind): bv32 {
    if k.Interrupt? || k.DataAbt? then Moved(a.pc, a.cpsr, 0xFFFFFFFC, 0xFFFFFFFE) else a.pc
  }

  function Width(psr: bv32): bv32 { if Thumb(psr) then 2 else 4 }

  /** The program counter after the return: a software interrupt or undefined instruction is done, an
      interrupted or aborted instruction is still to run. */
  function Resumed(a: Arch, k: Kind): bv32 {
    if k.Interrupt? || k.DataAbt? then a.pc else Moved(a.pc, a.cpsr, 4, 2)
  }

  /** Nothing in the run of the program is fetched from where it may not be. */
  predicate Fetchable(sys: System, a: Arch, s: Step)
    requires a.Valid() && WellFormed(s)
    decreases s
  {
    match s
    case Branch(addr) => sys.CanFetch(a.cpsr, Target(addr))
    case Raise(k, handler, _) =>
      (k.Interrupt? && Masked(a.cpsr)) || (
        && sys.CanFetch(HandlerMode(k), sys.exceptionBase)
        && sys.CanFetch(a.cpsr, ReturnAddress(a, k))
        && FetchableAll(sys, Raised(sys, a, k), handler))
    case _ => true
  }

  predicate FetchableAll(sys: System, a: Arch, steps: seq<Step>)
    requires a.Valid() && forall s <- steps :: WellFormed(s)
    decreases steps
  {
    steps == [] || (Fetchable(sys, a, steps[0]) && FetchableAll(sys, Run(sys, a, steps[0]), steps[1..]))
  }

  predicate Aligned(a: Arch) {
    a.pc & (if Thumb(a.cpsr) then 1 else 3) == 0
  }

  predicate Bit4(psr: bv32) { psr & 0x10 != 0 }

  /** Between two instructions. */
  ghost predicate Boundary(a: Arch) {
    a.Valid() && Aligned(a) && Bit4(a.cpsr)
  }

  /** `r` has the mode of `a`, and every register and saved status but those of `places`. */
  ghost predicate Kept(a: Arch, r: Arch, places: set<Place>)
    requires a.Valid() && r.Valid()
  {
    && Mode(r.cpsr) == Mode(a.cpsr)
    && a.file.SameBut(r.file, places)
    && forall b <- a.spsr :: Saved(b) !in places ==> r.spsr[b] == a.spsr[b]
  }

  // ----- bits -----

  lemma StateBit(psr: bv32, thumb: bool)
    ensures WithThumb(psr, Thumb(psr)) == psr && Thumb(WithThumb(psr, thumb)) == thumb
  {
  }

  lemma Bit4Stays(psr: bv32)
    requires Bit4(psr)
    ensures WithBit4(psr) == psr
  {
  }

  lemma LandIsAligned(addr: bv32)
    ensures PcAt(addr) & (if ToThumb(addr) then 1 else 3) == 0
  {
  }

  lemma AdvanceIsAligned(a: Arch)
    requires Aligned(a)
    ensures Moved(a.pc, a.cpsr, 4, 2) & (if Thumb(a.cpsr) then 1 else 3) == 0
  {
  }

  lemma MsrKeeps(psr: bv32, instr: bv32, val: bv32)
    requires Bit4(psr) && !ToSaved(instr)
    ensures var m := Merged(psr, WritableMask(instr, psr), val);
            (KeepsMode(instr, val, Mode(psr)) <==> Mode(m) == Mode(psr)) && Thumb(m) == Thumb(psr) && Bit4(m)
  {
  }

  /** What the link register is set to. */
  function LinkOf(a: Arch, k: Kind): bv32 {
    match k
    case SoftwareInterrupt => Moved(Moved(a.pc, a.cpsr, 4, 2), a.cpsr, 0xFFFFFFFC, 0xFFFFFFFE)
    case Undefined => Moved(Moved(a.pc, a.cpsr, 4, 2), a.cpsr, 0xFFFFFFFC, 0xFFFFFFFE)
    case Interrupt => Moved(a.pc, a.cpsr, 0, 2)
    case DataAbt => Moved(Moved(a.pc, a.cpsr, 4, 2), a.cpsr, 0, 4)
  }

  lemma UpDown(pc: bv32)
    ensures Plus(Plus(pc, 4), 0xFFFFFFFC) == pc && Plus(Plus(pc, 2), 0xFFFFFFFE) == pc
  {
  }

  lemma DownUpArm(pc: bv32)
    ensures Plus(Plus(pc, 0xFFFFFFFC), 4) == pc
  {
  }

  lemma DownUpThumb(pc: bv32)
    ensures Plus(Plus(pc, 0xFFFFFFFE), 2) == pc
  {
  }

  lemma PlusZero(pc: bv32)
    ensures Plus(pc, 0) == pc
  {
  }

  lemma PastArm(pc: bv32)
    ensures Plus(Plus(pc, 4), 0xFFFFFFF8) == Plus(pc, 0xFFFFFFFC)
  {
  }

  lemma PastThumb(pc: bv32)
    ensures Plus(Plus(pc, 2), 0xFFFFFFFC) == Plus(pc, 0xFFFFFFFE)
  {
  }

  lemma FarPastThumb(pc: bv32)
    ensures Plus(Plus(pc, 2), 4) == Plus(pc, 6)
    ensures Plus(Plus(pc, 6), 0xFFFFFFF8) == Plus(pc, 0xFFFFFFFE)
  {
  }

  lemma ReturnMath(a: Arch, k: Kind)
    ensures Before(LinkOf(a, k), Distance(k)) == ReturnAddress(a, k)
    ensures Resumed(a, k) == Plus(ReturnAddress(a, k), Width(a.cpsr))
  {
    hide Thumb, Plus;
    UpDown(a.pc);
    DownUpArm(a.pc);
    DownUpThumb(a.pc);
    PlusZero(a.pc);
    PlusZero(Plus(a.pc, 4));
    PastArm(a.pc);
    PastThumb(a.pc);
    FarPastThumb(a.pc);
  }

  lemma ReturnIsAligned(a: Arch, k: Kind)
    requires Aligned(a)
    ensures ReturnAddress(a, k) & (if Thumb(a.cpsr) then 1 else 3) == 0
  {
  }

  lemma JumpsBack(addr: bv32, thumb: bool)
    requires addr & (if thumb then 1 else 3) == 0
    ensures ToThumb(WithState(addr, thumb)) == thumb && Target(WithState(addr, thumb)) == addr
  {
  }

  lemma ReturnLands(a: Arch, k: Kind)
    requires Aligned(a)
    ensures var target := WithState(Before(LinkOf(a, k), Distance(k)), Thumb(a.cpsr));
            && ToThumb(target) == Thumb(a.cpsr) && Target(target) == ReturnAddress(a, k)
            && PcAt(target) == Resumed(a, k)
  {
    hide Aligned, Thumb, Before, LinkOf, Distance, WithState, ToThumb, Target, ReturnAddress, Resumed, Plus;
    ReturnMath(a, k);
    ReturnIsAligned(a, k);
    JumpsBack(ReturnAddress(a, k), Thumb(a.cpsr));
  }

  lemma FlagsLeaveMode(psr: bv32, flags: bv4)
    ensures Mode(WithFlags(psr, flags)) == Mode(psr)
  {
  }

  lemma HandlerModes(k: Kind)
    ensures BankOf(HandlerMode(k)) == BankFor(k) && SpsrBank(HandlerMode(k)) == BankFor(k)
    ensures Mode(HandlerMode(k)) == HandlerMode(k)
  {
  }

  // ----- entry and return -----

  predicate Runs(sys: System, a: Arch, k: Kind) {
    && !(k.Interrupt? && Masked(a.cpsr))
    && sys.CanFetch(HandlerMode(k), sys.exceptionBase)
  }

  lemma VectorOf(sys: System, cpsr: bv32, set_: bv32, k: Kind, clear: bv32, offset: bv32)
    requires sys.VectorsAligned() && IsVector(offset) && sys.CanFetch(HandlerMode(k), sys.exceptionBase)
    requires clear & 0x1F == 0x1F && set_ & 0x10 != 0 && Mode(set_) == HandlerMode(k)
    ensures var c := Switched(cpsr, clear, set_);
            && Mode(c) == HandlerMode(k) && Bit4(c)
            && sys.CanFetch(WithThumb(c, ToThumb(sys.Vector(offset))), Target(sys.Vector(offset)))
            && Mode(WithThumb(c, ToThumb(sys.Vector(offset)))) == HandlerMode(k)
            && Bit4(WithThumb(c, ToThumb(sys.Vector(offset))))
  {
    hide Switched, Mode, IsVector, WithThumb, ToThumb, Target, System.Vector, System.VectorsAligned;
    var c := Switched(cpsr, clear, set_);
    SwitchedMode(cpsr, clear, set_);
    HandlerModes(k);
    VectorFetch(sys, c, offset);
    StateBitKeepsMode(c, ToThumb(sys.Vector(offset)));
  }

  /** Entry from one of the exceptions, whatever its numbers are. */
  lemma Arrives(sys: System, a: Arch, k: Kind, clear: bv32, set_: bv32, lr: bv32, offset: bv32)
    requires a.Valid() && sys.VectorsAligned() && IsVector(offset) && sys.CanFetch(HandlerMode(k), sys.exceptionBase)
    requires clear & 0x1F == 0x1F && set_ & 0x10 != 0 && Mode(set_) == HandlerMode(k)
    ensures var e := Jump(sys, Enter(a, clear, set_, BankFor(k), lr), sys.Vector(offset));
            && Boundary(e) && Mode(e.cpsr) == HandlerMode(k)
            && e.file == a.file.With(BankFor(k), 14, lr) && e.spsr == a.spsr[BankFor(k) := a.cpsr]
            && e == Land(Enter(a, clear, set_, BankFor(k), lr), sys.Vector(offset))
  {
    hide Switched, Mode, IsVector, WithThumb, ToThumb, Target, PcAt, Thumb, Bit4, System.Vector, System.VectorsAligned,
         RegFile.With, PrefetchAborted, System.CanFetch;
    VectorOf(sys, a.cpsr, set_, k, clear, offset);
    var v, c := sys.Vector(offset), Switched(a.cpsr, clear, set_);
    StateBit(c, ToThumb(v));
    LandIsAligned(v);
  }

  lemma Numbers()
    ensures IsVector(0x04) && IsVector(0x08) && IsVector(0x0C) && IsVector(0x10) && IsVector(0x18)
    ensures 0xBF & 0x1F == (0x1F as bv32) && 0xFF & 0x1F == (0x1F as bv32)
    ensures Mode(0x93) == 0x13 && Mode(0x9B) == 0x1B && Mode(0x97) == 0x17 && Mode(0xD2) == 0x12
  {
  }

  lemma EntryIs(sys: System, a: Arch, k: Kind)
    requires a.Valid() && sys.VectorsAligned() && Runs(sys, a, k)
    ensures var e := Raised(sys, a, k);
            && Boundary(e) && Mode(e.cpsr) == HandlerMode(k)
            && e.file == a.file.With(BankFor(k), 14, LinkOf(a, k)) && e.spsr == a.spsr[BankFor(k) := a.cpsr]
  {
    hide Jump, Enter, Boundary, Moved, Mode, Masked, IsVector, System.VectorsAligned, System.CanFetch, RegFile.With;
    Numbers();
    var b := Advanced(a);
    match k
    case SoftwareInterrupt => Arrives(sys, b, k, 0xBF, 0x93, Moved(b.pc, b.cpsr, 0xFFFFFFFC, 0xFFFFFFFE), 0x08);
    case Undefined => Arrives(sys, b, k, 0xBF, 0x9B, Moved(b.pc, b.cpsr, 0xFFFFFFFC, 0xFFFFFFFE), 0x04);
    case Interrupt => Arrives(sys, a, k, 0xFF, 0xD2, Moved(a.pc, a.cpsr, 0, 2), 0x18);
    case DataAbt => Arrives(sys, b, k, 0xBF, 0x97, Moved(b.pc, b.cpsr, 0, 4), 0x10);
  }

  /** The return path undoes the entry: status and program counter come back from the saved status and the
      link register, and nothing else moves. The link is that of `l`, in the mode of `k`. */
  lemma ReturnIs(sys: System, a: Arch, h: Arch, k: Kind, l: Kind, flags: bv4)
    requires Boundary(a) && h.Valid() && Mode(h.cpsr) == HandlerMode(k)
    requires h.spsr[BankFor(k)] == a.cpsr && h.file.Get(BankFor(k), 14) == LinkOf(a, l)
    requires sys.CanFetch(a.cpsr, ReturnAddress(a, l))
    ensures Returned(sys, h, Distance(l), flags) == h.(cpsr := a.cpsr, pc := Resumed(a, l))
  {
    hide Mode, BankOf, SpsrBank, WithFlags, WithBit4, WithThumb, ToThumb, Target, PcAt, Thumb, Bit4, Aligned, LinkOf, Distance,
         ReturnAddress, Resumed, Before, WithState, RegFile.Get, PrefetchAborted, HandlerMode, BankFor;
    FlagsLeaveMode(h.cpsr, flags);
    HandlerModes(k);
    HandlerBankIsNotUsr(k);
    Bit4Stays(a.cpsr);
    ReturnLands(a, l);
    StateBit(a.cpsr, true);
  }

  lemma HandlerBankIsNotUsr(k: Kind)
    ensures BankFor(k) != Usr
  {
  }

  // ----- whole programs -----

  lemma RegisterWritten(f: RegFile, b: Bank, k: nat, v: bv32)
    requires f.Valid() && k < 15
    ensures f.SameBut(f.With(b, k, v), {PlaceOf(b, k)}) && f.With(b, k, v).Get(b, k) == v
  {
  }

  lemma WriteKeepsAll(a: Arch, k: nat, v: bv32)
    requires Boundary(a) && k < 15
    ensures var r := a.WithRegIn(a.Current(), k, v); Boundary(r) && Kept(a, r, {PlaceOf(a.Current(), k)})
  {
    hide Mode, BankOf, Thumb, RegFile.Get, RegFile.With, RegFile.SameBut;
    RegisterWritten(a.file, a.Current(), k, v);
  }

  lemma KeptBoth(a: Arch, b: Arch, c: Arch, first: set<Place>, then_: set<Place>)
    requires a.Valid() && b.Valid() && c.Valid() && Kept(a, b, first) && Kept(b, c, then_)
    ensures Kept(a, c, first + then_)
  {
    hide RegFile.Get, Mode;
  }

  lemma MsrKeepsAll(a: Arch, instr: bv32, val: bv32)
    requires Boundary(a) && KeepsMode(instr, val, Mode(a.cpsr))
    ensures Boundary(StatusWritten(a, instr, val)) && Kept(a, StatusWritten(a, instr, val), {})
  {
    hide Mode, Merged, WritableMask, Thumb, Bit4, SpsrBank;
    MsrKeeps(a.cpsr, instr, val);
    assert !ToSaved(instr) by { NotToSaved(instr, val, Mode(a.cpsr)); }
  }

  lemma NotToSaved(instr: bv32, val: bv32, mode: bv32)
    requires KeepsMode(instr, val, mode)
    ensures !ToSaved(instr)
  {
  }

  lemma AdvanceKeepsAll(a: Arch)
    requires Boundary(a)
    ensures Boundary(Advanced(a)) && Kept(a, Advanced(a), {})
  {
    hide Mode, Moved, RegFile.Get;
    AdvanceIsAligned(a);
  }

  lemma BranchKeepsAll(sys: System, a: Arch, addr: bv32)
    requires Boundary(a) && sys.CanFetch(a.cpsr, Target(addr))
    ensures Boundary(Jump(sys, a, addr)) && Kept(a, Jump(sys, a, addr), {})
  {
    hide Aligned, Bit4, Kept, Land, PrefetchAborted;
    LandKeepsAll(a, addr);
    SameFetch(sys, a, addr);
  }

  lemma SameFetch(sys: System, a: Arch, addr: bv32)
    requires a.Valid()
    ensures sys.CanFetch(Land(a, addr).cpsr, Target(addr)) == sys.CanFetch(a.cpsr, Target(addr))
  {
    hide Mode, WithThumb, ToThumb, Target;
    StateBitKeepsMode(a.cpsr, ToThumb(addr));
  }

  lemma EntryKeeps(a: Arch, e: Arch, b: Bank, lr: bv32, saved: bv32)
    requires a.Valid() && e.Valid() && e.cpsr == a.cpsr && e.file == a.file.With(b, 14, lr) && e.spsr == a.spsr[b := saved]
    ensures Kept(a, e, Overwritten(b))
  {
    hide RegFile.With, RegFile.Get;
    RegisterWritten(a.file, b, 14, lr);
  }

  /** A handler that keeps its own link register and saved status gets back to where it was called from. */
  lemma ComesBack(sys: System, a: Arch, e: Arch, h: Arch, k: Kind, l: Kind, flags: bv4, places: set<Place>)
    requires Boundary(a) && e.Valid() && h.Valid() && places !! Overwritten(BankFor(k)) && Kept(e, h, places)
    requires Mode(e.cpsr) == HandlerMode(k) && e.spsr == a.spsr[BankFor(k) := a.cpsr]
    requires e.file == a.file.With(BankFor(k), 14, LinkOf(a, l))
    requires sys.CanFetch(a.cpsr, ReturnAddress(a, l))
    ensures var r := Returned(sys, h, Distance(l), flags);
            Boundary(r) && r.cpsr == a.cpsr && r.pc == Resumed(a, l) && Kept(a, r, Overwritten(BankFor(k)) + places)
  {
    hide Returned, Mode, Bit4, Thumb, LinkOf, Resumed, ReturnAddress, Distance, RegFile.Get, RegFile.With, System.CanFetch;
    var b := BankFor(k);
    RegisterWritten(a.file, b, 14, LinkOf(a, l));
    assert PlaceOf(b, 14) in Overwritten(b) && Saved(b) in Overwritten(b);
    assert h.file.Get(b, 14) == e.file.Get(b, 14);
    assert h.spsr[b] == e.spsr[b];
    ReturnIs(sys, a, h, k, l, flags);
    ResumedAligned(a, l);
    EntryKeeps(a, e.(cpsr := a.cpsr), b, LinkOf(a, l), a.cpsr);
    KeptBoth(a, e.(cpsr := a.cpsr), h.(cpsr := a.cpsr, pc := Resumed(a, l)), Overwritten(b), places);
  }

  /** The jump that ended in a prefetch abort is completed by the handler's SUBS pc, lr, #4, once the handler
      has seen to it that the target may be fetched (`after` is the protection it leaves). */
  lemma AbortedJumpCompletes(sys: System, after: System, a: Arch, addr: bv32, h: Arch, flags: bv4, places: set<Place>)
    requires Boundary(a) && h.Valid() && sys.VectorsAligned() && sys.CanFetch(0x17, sys.exceptionBase)
    requires !sys.CanFetch(Land(a, addr).cpsr, Target(addr)) && after.CanFetch(Land(a, addr).cpsr, Target(addr))
    requires places !! Overwritten(Abt) && Kept(Jump(sys, a, addr), h, places)
    ensures var r := Returned(after, h, 4, flags);
            r.cpsr == Land(a, addr).cpsr && r.pc == Land(a, addr).pc && Kept(a, r, Overwritten(Abt) + places)
  {
    hide Aligned, Bit4, Kept, Land, Jump, PrefetchAborted, Returned, LinkOf, Resumed, ReturnAddress, Distance, Thumb, ToThumb,
         Target, PcAt, Mode, HandlerMode, BankFor, System.CanFetch, System.VectorsAligned, RegFile.With;
    var j := Land(a, addr);
    LandKeepsAll(a, addr);
    AbortIs(sys, a, addr);
    AbortEntryIs(sys, j);
    LandedAddress(j, addr);
    AbtMode();
    ComesBack(after, j, PrefetchAborted(sys, j), h, DataAbt, Interrupt, flags, places);
    KeptBoth(a, j, Returned(after, h, 4, flags), {}, Overwritten(Abt) + places);
    assert {} + (Overwritten(Abt) + places) == Overwritten(Abt) + places;
  }

  lemma AbtMode()
    ensures BankFor(DataAbt) == Abt && HandlerMode(DataAbt) == 0x17 && Distance(Interrupt) == 4
  {
  }

  lemma AbortIs(sys: System, a: Arch, addr: bv32)
    requires a.Valid() && !sys.CanFetch(Land(a, addr).cpsr, Target(addr))
    ensures Jump(sys, a, addr) == PrefetchAborted(sys, Land(a, addr))
  {
  }

  lemma LandKeepsAll(a: Arch, addr: bv32)
    requires Boundary(a)
    ensures var j := Land(a, addr);
            Boundary(j) && Kept(a, j, {}) && j.pc == PcAt(addr) && Thumb(j.cpsr) == ToThumb(addr)
  {
    hide Mode, WithThumb, ToThumb, Target, PcAt, RegFile.Get;
    LandIsAligned(addr);
    StateBit(a.cpsr, ToThumb(addr));
    StateBitKeepsMode(a.cpsr, ToThumb(addr));
  }

  /** An interrupt taken on landing would return to the landing address. */
  lemma LandedAddress(j: Arch, addr: bv32)
    requires j.pc == PcAt(addr) && Thumb(j.cpsr) == ToThumb(addr)
    ensures ReturnAddress(j, Interrupt) == Target(addr) && Resumed(j, Interrupt) == j.pc
  {
    hide Thumb, ToThumb, Target, Plus;
    UpDown(Target(addr));
  }

  lemma AbortEntryIs(sys: System, j: Arch)
    requires j.Valid() && sys.VectorsAligned() && sys.CanFetch(0x17, sys.exceptionBase)
    ensures var e := PrefetchAborted(sys, j);
            && Boundary(e) && Mode(e.cpsr) == 0x17
            && e.file == j.file.With(Abt, 14, LinkOf(j, Interrupt)) && e.spsr == j.spsr[Abt := j.cpsr]
  {
    hide Jump, Enter, Land, Boundary, Moved, Mode, IsVector, Switched, System.VectorsAligned, RegFile.With;
    Numbers();
    SwitchedMode(j.cpsr, 0xBF, 0x97);
    HandlerModes(DataAbt);
    Arrives(sys, j, DataAbt, 0xBF, 0x97, Moved(j.pc, j.cpsr, 0, 2), 0x0C);
  }

  /** Whatever properly nested exceptions do, they give back the mode and every register and saved status but what
      handlers have written and the link registers and saved statuses of the modes they entered; an exception
      gives back the whole status register and the program counter as well. */
  lemma {:induction false} ExceptionsRestore(sys: System, a: Arch, s: Step)
    requires sys.VectorsAligned() && Boundary(a) && WellFormed(s)
    requires Nested(s, Mode(a.cpsr)) && Fetchable(sys, a, s)
    ensures var r := Run(sys, a, s); Boundary(r) && Kept(a, r, Changes(s, a.Current()))
    ensures s.Raise? && !(s.kind.Interrupt? && Masked(a.cpsr)) ==>
              Run(sys, a, s).cpsr == a.cpsr && Run(sys, a, s).pc == Resumed(a, s.kind)
    decreases s
  {
    hide Mode, Bit4, Aligned, Thumb, Raised, Returned, Resumed, ReturnAddress, LinkOf, Distance, Masked, RegFile.SameBut, RegFile.With,
         StatusWritten, Jump, Advanced, Kept, BankFor, HandlerMode, BankOf, Overwritten, PlaceOf;
    match s
    case Advance => AdvanceKeepsAll(a);
    case Write(k, v) => WriteKeepsAll(a, k, v);
    case Msr(instr, val) => MsrKeepsAll(a, instr, val);
    case Branch(addr) => BranchKeepsAll(sys, a, addr);
    case Raise(k, handler, flags) =>
      if !(k.Interrupt? && Masked(a.cpsr)) {
        var e := Raised(sys, a, k);
        EntryIs(sys, a, k);
        HandlerModes(k);
        CurrentIs(e, k);
        ProgramsRestore(sys, e, handler);
        ComesBack(sys, a, e, RunAll(sys, e, handler), k, k, flags, ChangesOf(handler, BankFor(k)));
      } else {
        SameAsItself(a);
        KeptMore(a, a, {}, Changes(s, a.Current()));
      }
  }

  lemma ResumedAligned(a: Arch, k: Kind)
    requires Aligned(a)
    ensures Resumed(a, k) & (if Thumb(a.cpsr) then 1 else 3) == 0
  {
    AdvanceIsAligned(a);
  }

  lemma KeptMore(a: Arch, b: Arch, fewer: set<Place>, more: set<Place>)
    requires a.Valid() && b.Valid() && Kept(a, b, fewer) && fewer <= more
    ensures Kept(a, b, more)
  {
    hide RegFile.Get, Mode;
  }

  lemma {:induction false} ProgramsRestore(sys: System, a: Arch, steps: seq<Step>)
    requires sys.VectorsAligned() && Boundary(a) && (forall s <- steps :: WellFormed(s))
    requires NestedAll(steps, Mode(a.cpsr)) && FetchableAll(sys, a, steps)
    ensures var r := RunAll(sys, a, steps); Boundary(r) && Kept(a, r, ChangesOf(steps, a.Current()))
    decreases steps
  {
    hide Mode, Aligned, Bit4, RegFile.SameBut, WellFormed, Nested, Fetchable, Run;
    if steps != [] {
      ExceptionsRestore(sys, a, steps[0]);
      var b := Run(sys, a, steps[0]);
      ProgramsRestore(sys, b, steps[1..]);
      SameBank(a, b);
      KeptBoth(a, b, RunAll(sys, b, steps[1..]), Changes(steps[0], a.Current()), ChangesOf(steps[1..], a.Current()));
    } else {
      assert Kept(a, a, {}) by { SameAsItself(a); }
    }
  }

  lemma CurrentIs(e: Arch, k: Kind)
    requires Mode(e.cpsr) == HandlerMode(k)
    ensures e.Current() == BankFor(k)
  {
    hide Mode;
  }

  lemma SameBank(a: Arch, b: Arch)
    requires Mode(a.cpsr) == Mode(b.cpsr)
    ensures a.Current() == b.Current()
  {
  }

  lemma SameAsItself(a: Arch)
    requires a.Valid()
    ensures Kept(a, a, {})
  {
  }
}
