/**
  The processor state of the ARM Architecture Reference Manual (DDI 0100, sections A2.3 to A2.6): every mode
  has its own registers, and a mode change moves nothing. Exceptions, jumps, MSR and programs of them are
  functions on this state.
*/
module ArmState {
  /** What does not change: the CPU (0 is the ARM9), where its vectors are, and which 4 KB pages the
      protection unit of the ARM9 lets user and privileged code be fetched from. */
  datatype System = System(num: nat, exceptionBase: bv32, userExec: bv32 -> bool, privExec: bv32 -> bool) {
    predicate CanFetch(cpsr: bv32, addr: bv32) {
      num != 0 || if Mode(cpsr) == 0x10 then userExec(Page(addr)) else privExec(Page(addr))
    }

    function Vector(offset: bv32): bv32 { exceptionBase + offset }

    /** The vectors are at the start of a page. */
    predicate VectorsAligned() { exceptionBase & 0xFFF == 0 }
  }

  function Page(addr: bv32): bv32 { addr >> 12 }

  datatype Bank = Usr | Fiq | Irq | Svc | Abt | Und

  function Mode(psr: bv32): bv32 { psr & 0x1F }

  /** The bank whose registers a mode uses. */
  function BankOf(mode: bv32): Bank {
    if mode == 0x11 then Fiq
    else if mode == 0x12 then Irq
    else if mode == 0x13 then Svc
    else if mode == 0x17 then Abt
    else if mode == 0x1B then Und
    else Usr
  }

  /** The bank whose saved status register a mode uses; `Usr` has none. The reserved modes next to
      Abort and Undefined share theirs. */
  function SpsrBank(mode: bv32): Bank {
    if 0x14 <= mode <= 0x17 then Abt
    else if 0x18 <= mode <= 0x1B then Und
    else BankOf(mode)
  }

  /** Registers 0 to 7, the user bank of 8 to 14, 8 to 14 of FIQ mode, 13 and 14 of the other modes. */
  datatype RegFile = RegFile(
    low: seq<bv32>, usr: seq<bv32>, fiq: seq<bv32>,
    irq: seq<bv32>, svc: seq<bv32>, abt: seq<bv32>, und: seq<bv32>)
  {
    predicate Valid() {
      |low| == 8 && |usr| == |fiq| == 7 && |irq| == |svc| == |abt| == |und| == 2
    }

    /** Registers 13 and 14 of a bank. */
    function Top(b: Bank): (top: seq<bv32>)
      requires Valid()
      ensures |top| == 2
    {
      match b
      case Usr => usr[5..]
      case Fiq => fiq[5..]
      case Irq => irq
      case Svc => svc
      case Abt => abt
      case Und => und
    }

    /** Register `k` as the modes of bank `b` see it. */
    function Get(b: Bank, k: nat): bv32
      requires Valid() && k < 15
    {
      if k < 8 then low[k]
      else if k >= 13 then Top(b)[k - 13]
      else if b == Fiq then fiq[k - 8] else usr[k - 8]
    }

    function With(b: Bank, k: nat, v: bv32): (f: RegFile)
      requires Valid() && k < 15
      ensures f.Valid()
    {
      if k < 8 then this.(low := low[k := v])
      else if b == Fiq then this.(fiq := fiq[k - 8 := v])
      else if k < 13 || b == Usr then this.(usr := usr[k - 8 := v])
      else
        match b
        case Irq => this.(irq := irq[k - 13 := v])
        case Svc => this.(svc := svc[k - 13 := v])
        case Abt => this.(abt := abt[k - 13 := v])
        case Und => this.(und := und[k - 13 := v])
    }

    /** The two differ at most in the registers of `places`. */
    ghost predicate SameBut(f: RegFile, places: set<Place>)
      requires Valid() && f.Valid()
    {
      forall b: Bank, k: nat :: k < 15 && PlaceOf(b, k) !in places ==> f.Get(b, k) == Get(b, k)
    }
  }

  /** Where a register is, or the saved status of a bank. */
  datatype Place = Register(bank: Bank, k: nat) | Saved(bank: Bank)

  /** Register `k` of the modes of bank `b`; most registers are the same for several banks. */
  function PlaceOf(b: Bank, k: nat): Place {
    Register(if k < 8 || (k < 13 && b != Fiq) then Usr else b, k)
  }

  /** The state the architecture describes; `spsr` has the saved status of every bank but `Usr`. */
  datatype Arch = Arch(file: RegFile, spsr: map<Bank, bv32>, cpsr: bv32, pc: bv32) {
    ghost predicate Valid() {
      file.Valid() && spsr.Keys == {Fiq, Irq, Svc, Abt, Und}
    }

    /** The bank of the current mode. */
    function Current(): Bank { BankOf(Mode(cpsr)) }

    /** Register `k` as the modes of bank `b` see it; 15 is the program counter. */
    function RegIn(b: Bank, k: nat): bv32
      requires Valid() && k < 16
    {
      if k == 15 then pc else file.Get(b, k)
    }

    function Reg(k: nat): bv32
      requires Valid() && k < 16
    {
      RegIn(Current(), k)
    }

    function WithRegIn(b: Bank, k: nat, v: bv32): (r: Arch)
      requires Valid() && k < 16
      ensures r.Valid()
    {
      if k == 15 then this.(pc := v) else this.(file := file.With(b, k, v))
    }

    /** Bit 4 is set in every status register. */
    ghost predicate Bit4Set() {
      cpsr & 0x10 != 0 && forall b <- spsr :: spsr[b] & 0x10 != 0
    }
  }

  predicate Thumb(psr: bv32) { psr & 0x20 != 0 }

  function WithThumb(psr: bv32, thumb: bool): bv32 {
    if thumb then psr | 0x20 else psr & !0x20
  }

  function WithBit4(psr: bv32): bv32 { psr | 0x10 }

  /** Bit 0 of a jump address selects THUMB state. */
  predicate ToThumb(addr: bv32) { addr & 1 != 0 }

  function Target(addr: bv32): bv32 {
    if ToThumb(addr) then addr & !1 else addr & !3
  }

  /** What `R[15]` is set to on arrival: one instruction ahead. */
  function PcAt(addr: bv32): bv32 {
    Plus(Target(addr), if ToThumb(addr) then 2 else 4)
  }

  function Land(a: Arch, addr: bv32): (r: Arch)
    requires a.Valid()
    ensures r.Valid()
  {
    a.(pc := PcAt(addr), cpsr := WithThumb(a.cpsr, ToThumb(addr)))
  }

  /** The saved status becomes the status; bit 4 stays set. */
  function Restore(a: Arch): (r: Arch)
    requires a.Valid()
    ensures r.Valid()
  {
    var b := SpsrBank(Mode(a.cpsr));
    a.(cpsr := WithBit4(if b == Usr then a.cpsr else a.spsr[b]))
  }

  function Switched(psr: bv32, clear: bv32, set_: bv32): bv32 { (psr & !clear) | set_ }

  predicate Masked(psr: bv32) { psr & 0x80 != 0 }

  /** Saves status and return address in the bank of the new mode. */
  function Enter(a: Arch, clear: bv32, set_: bv32, b: Bank, lr: bv32): (r: Arch)
    requires a.Valid() && b != Usr
    ensures r.Valid()
  {
    a.(cpsr := Switched(a.cpsr, clear, set_), spsr := a.spsr[b := a.cpsr], file := a.file.With(b, 14, lr))
  }

  /** A jump to where nothing may be fetched from ends in a prefetch abort. */
  function Jump(sys: System, a: Arch, addr: bv32): (r: Arch)
    requires a.Valid()
    ensures r.Valid()
  {
    var j := Land(a, addr);
    if sys.CanFetch(j.cpsr, Target(addr)) then j else PrefetchAborted(sys, j)
  }

  function PrefetchAborted(sys: System, a: Arch): (r: Arch)
    requires a.Valid()
    ensures r.Valid()
  {
    var abort := Switched(a.cpsr, 0xBF, 0x97);
    if !sys.CanFetch(abort, sys.exceptionBase) then a.(cpsr := abort)
    else Land(Enter(a, 0xBF, 0x97, Abt, Moved(a.pc, a.cpsr, 0, 2)), sys.Vector(0x0C))
  }

  /** The program counter moved by a distance that depends on the instruction set. */
  function Moved(pc: bv32, psr: bv32, arm: bv32, thumb: bv32): bv32 {
    Plus(pc, if Thumb(psr) then thumb else arm)
  }

  function Plus(x: bv32, y: bv32): bv32 { x + y }

  function JumpRestoring(sys: System, a: Arch, addr: bv32): (r: Arch)
    requires a.Valid()
    ensures r.Valid()
  {
    var r := Restore(a);
    Jump(sys, r, WithState(addr, Thumb(r.cpsr)))
  }

  function WithState(addr: bv32, thumb: bool): bv32 { if thumb then addr | 1 else addr & !1 }

  function WithFlags(psr: bv32, flags: bv4): bv32 { (psr & !0xF0000000) | ((flags as bv32) << 28) }

  function Before(addr: bv32, distance: bv32): bv32 { Plus(addr, 0 - distance) }

  datatype Kind = SoftwareInterrupt | Undefined | Interrupt | DataAbt

  function BankFor(k: Kind): Bank {
    match k case SoftwareInterrupt => Svc case Undefined => Und case Interrupt => Irq case DataAbt => Abt
  }

  /** The exceptions other than a prefetch abort, from the state in which the code raises them. An
      interrupt waits while it is masked. */
  function Taken(sys: System, a: Arch, k: Kind): (r: Arch)
    requires a.Valid()
    ensures r.Valid()
  {
    match k
    case SoftwareInterrupt => Jump(sys, Enter(a, 0xBF, 0x93, Svc, Moved(a.pc, a.cpsr, 0xFFFFFFFC, 0xFFFFFFFE)), sys.Vector(0x08))
    case Undefined => Jump(sys, Enter(a, 0xBF, 0x9B, Und, Moved(a.pc, a.cpsr, 0xFFFFFFFC, 0xFFFFFFFE)), sys.Vector(0x04))
    case DataAbt => Jump(sys, Enter(a, 0xBF, 0x97, Abt, Moved(a.pc, a.cpsr, 0, 4)), sys.Vector(0x10))
    case Interrupt =>
      if Masked(a.cpsr) then a
      else Jump(sys, Enter(a, 0xFF, 0xD2, Irq, Moved(a.pc, a.cpsr, 0, 2)), sys.Vector(0x18))
  }

  // ----- MSR -----

  predicate ToSaved(instr: bv32) { instr & 0x400000 != 0 }

  /** The bits of the status register that the instruction may write. */
  function FieldMask(instr: bv32): bv32 {
    (if instr & 0x10000 != 0 then 0xFF else 0)
    | (if instr & 0x20000 != 0 then 0xFF00 else 0)
    | (if instr & 0x40000 != 0 then 0xFF0000 else 0)
    | (if instr & 0x80000 != 0 then 0xFF000000 else 0)
  }

  /** The state bit is never written to CPSR, nor the control bits in user mode. */
  function WritableMask(instr: bv32, cpsr: bv32): bv32 {
    FieldMask(instr) & (if ToSaved(instr) then 0xFFFFFFFF else 0xFFFFFFDF)
    & (if Mode(cpsr) == 0x10 then 0xFFFFFF00 else 0xFFFFFFFF)
  }

  function Merged(psr: bv32, mask: bv32, val: bv32): bv32 {
    (psr & !mask) | ((val | 0x10) & mask)
  }

  function StatusWritten(a: Arch, instr: bv32, val: bv32): (r: Arch)
    requires a.Valid()
    ensures r.Valid()
  {
    var b, mask := SpsrBank(Mode(a.cpsr)), WritableMask(instr, a.cpsr);
    if !ToSaved(instr) then a.(cpsr := Merged(a.cpsr, mask, val))
    else if b == Usr then a
    else a.(spsr := a.spsr[b := Merged(a.spsr[b], mask, val)])
  }

  function Rotated(imm: bv32, count: bv32): bv32 { (imm >> (count & 31)) | (imm << ((32 - count) & 31)) }

  function PowerOn(): (a: Arch)
    ensures a.Valid() && a.Bit4Set()
  {
    var zeros := RegFile(Zeros(8), Zeros(7), Zeros(7), Zeros(2), Zeros(2), Zeros(2), Zeros(2));
    Arch(zeros, map[Fiq := 0x10, Irq := 0x10, Svc := 0x10, Abt := 0x10, Und := 0x10], 0xD3, 0)
  }

  function Zeros(n: nat): seq<bv32> { seq(n, _ => 0) }

  // ----- programs -----

  /** What moves through the modes: instruction fetches, register writes, MSR, branches, and exceptions
      with the program of their handler, which ends in SUBS pc, lr. */
  datatype Step =
    | Advance
    | Write(k: nat, v: bv32)
    | Msr(instr: bv32, val: bv32)
    | Branch(addr: bv32)
    | Raise(kind: Kind, handler: seq<Step>, flags: bv4)

  predicate WellFormed(s: Step) {
    match s
    case Write(k, _) => k < 16
    case Raise(_, handler, _) => forall h <- handler :: WellFormed(h)
    case _ => true
  }

  /** How far behind the link register the handler returns to. */
  function Distance(k: Kind): bv32 {
    match k case SoftwareInterrupt => 0 case Undefined => 0 case Interrupt => 4 case DataAbt => 8
  }

  function Advanced(a: Arch): (r: Arch)
    requires a.Valid()
    ensures r.Valid()
  {
    a.(pc := Moved(a.pc, a.cpsr, 4, 2))
  }

  /** An interrupt comes between two instructions, the other exceptions during one. */
  function Raised(sys: System, a: Arch, k: Kind): (r: Arch)
    requires a.Valid()
    ensures r.Valid()
  {
    Taken(sys, if k.Interrupt? then a else Advanced(a), k)
  }

  function Returned(sys: System, a: Arch, imm: bv32, flags: bv4): (r: Arch)
    requires a.Valid()
    ensures r.Valid()
  {
    JumpRestoring(sys, a.(cpsr := WithFlags(a.cpsr, flags)), Before(a.Reg(14), imm))
  }

  function Run(sys: System, a: Arch, s: Step): (r: Arch)
    requires a.Valid() && WellFormed(s)
    ensures r.Valid()
    decreases s
  {
    match s
    case Advance => Advanced(a)
    case Write(k, v) => a.WithRegIn(a.Current(), k, v)
    case Msr(instr, val) => StatusWritten(a, instr, val)
    case Branch(addr) => Jump(sys, a, addr)
    case Raise(k, handler, flags) =>
      if k.Interrupt? && Masked(a.cpsr) then a
      else Returned(sys, RunAll(sys, Raised(sys, a, k), handler), Distance(k), flags)
  }

  function RunAll(sys: System, a: Arch, steps: seq<Step>): (r: Arch)
    requires a.Valid() && forall s <- steps :: WellFormed(s)
    ensures r.Valid()
    decreases steps
  {
    if steps == [] then a else RunAll(sys, Run(sys, a, steps[0]), steps[1..])
  }
}
