/**
  The register cache of the recompiler (src/ARMJIT_RegisterCache.h), run in lock
  step with the code it emits: `SaveReg` and `LoadReg` copy a register between
  the guest register file in memory and a native register, and every compiled
  instruction works on native registers where they are allocated.

  The reference is direct execution on the guest register file (`DirectRun`).
*/
module RegisterCaching {
  newtype u32 = x: int | 0 <= x < 0x1_0000_0000

  /** Everything an instruction can see or change besides registers 0 to 14. */
  datatype World = World(memory: map<u32, u32>, flags: u32)

  /** A fetched instruction: which registers it touches, and what it does with them if its condition holds
      (`fires`).
      `constants` are the results that the emitter knows in advance. */
  datatype Instr = Instr(
    srcRegs: set<nat>,
    dstRegs: set<nat>,
    notStrictlyNeeded: set<nat>,
    cond: nat,
    canCompile: bool,
    fires: World -> bool,
    result: (nat, map<nat, u32>, World) -> u32,
    effect: (map<nat, u32>, World) -> World,
    constants: map<nat, u32>)
  {
    /** The test of the cache for instructions that are sure to overwrite their destinations. */
    predicate Unconditional(thumb: bool) {
      thumb || cond >= 0xE
    }

    ghost predicate WellFormed() {
      && (forall r <- srcRegs + dstRegs :: r < 16)
      && notStrictlyNeeded <= srcRegs + dstRegs
      && (forall r <- constants :: r in dstRegs && r < 15)
      && (forall r, s, w :: r in constants ==> result(r, s, w) == constants[r])
    }

    /** The registers whose old value an execution never looks at. */
    function Overwritten(thumb: bool): set<nat> {
      if Unconditional(thumb) then dstRegs - srcRegs else {}
    }

    /** The registers that `Prepare` guarantees to be in native registers. */
    function Necessary(pcAllocatableAsSrc: bool): set<nat> {
      (if pcAllocatableAsSrc then srcRegs else srcRegs - {15}) + dstRegs - notStrictlyNeeded
    }
  }

  /** A register that is loaded without its value is one the instruction overwrites unseen. */
  lemma LoadedUnseen(instr: Instr, thumb: bool, pcAllocatableAsSrc: bool)
    requires instr.WellFormed()
    ensures forall r <- instr.Necessary(pcAllocatableAsSrc) ::
      r < 16 && (!instr.Unconditional(thumb) || r in instr.srcRegs || r in instr.Overwritten(thumb))
    ensures forall r <- instr.notStrictlyNeeded ::
      r < 16 && (!instr.Unconditional(thumb) || r in instr.srcRegs || r in instr.Overwritten(thumb))
  {
  }

  /** In THUMB state and from condition code 0xE on, instructions are always executed; below, it depends. */
  ghost predicate FiresAlways(thumb: bool, instr: Instr) {
    thumb || instr.cond >= 0xE ==> forall w :: instr.fires(w)
  }

  /** What is not executed is not taken for unconditional, so that no register is loaded without its value. */
  lemma SkippedIsSeen(thumb: bool, instr: Instr, w: World)
    requires FiresAlways(thumb, instr) && !instr.fires(w)
    ensures !instr.Unconditional(thumb) && instr.Overwritten(thumb) == {}
  {
  }

  /** Every register that an instruction reads or writes is loaded, but for those it does not strictly need. */
  ghost predicate MappedFor(instr: Instr, loaded: set<nat>) {
    forall r: nat :: r < 15 && (r in instr.srcRegs || r in instr.dstRegs) && r !in instr.notStrictlyNeeded ==> r in loaded
  }

  lemma NecessaryIsMapped(instr: Instr, pcAllocatableAsSrc: bool, loaded: set<nat>)
    requires instr.Necessary(pcAllocatableAsSrc) <= loaded
    ensures MappedFor(instr, loaded)
  {
  }

  lemma OverwrittenIsWritten(instr: Instr, thumb: bool)
    ensures instr.Overwritten(thumb) <= instr.dstRegs
  {
  }

  /** The values of the source registers of `instr`; register 15 is a constant to the emitter. */
  function Operands(instr: Instr, g: seq<u32>): map<nat, u32>
    requires |g| == 15
  {
    map r | 0 <= r < 15 && r in instr.srcRegs :: g[r]
  }

  /** One instruction, executed directly on guest registers 0 to 14. */
  function Step(instr: Instr, g: seq<u32>, w: World): (next: (seq<u32>, World))
    requires |g| == 15
    ensures |next.0| == 15
  {
    if instr.fires(w) then
      (seq(15, r requires 0 <= r < 15 => if r in instr.dstRegs then instr.result(r, Operands(instr, g), w) else g[r]),
       instr.effect(Operands(instr, g), w))
    else (g, w)
  }

  /** What `instr` leaves does not depend on the old value of register `r`. */
  ghost predicate Ignores(instr: Instr, r: nat)
    requires r < 15
  {
    forall g, h, w | ApartFrom(g, h, r) :: Step(instr, g, w) == Step(instr, h, w)
  }

  ghost predicate ApartFrom(g: seq<u32>, h: seq<u32>, r: nat) {
    |g| == |h| == 15 && forall k: nat :: k < 15 && k != r ==> g[k] == h[k]
  }

  /** Any behaviour of an instruction with the registers and the condition code of `instr`. */
  ghost predicate Like(other: Instr, instr: Instr, thumb: bool) {
    && other.srcRegs == instr.srcRegs && other.dstRegs == instr.dstRegs && other.cond == instr.cond
    && FiresAlways(thumb, other)
  }

  /** The registers that may be loaded without their value are exactly those that no behaviour looks at. */
  lemma OverwrittenIff(instr: Instr, thumb: bool, r: nat)
    requires r < 15
    ensures r in instr.Overwritten(thumb) <==> forall other | Like(other, instr, thumb) :: Ignores(other, r)
  {
    if r in instr.Overwritten(thumb) {
      forall other | Like(other, instr, thumb) ensures Ignores(other, r) {
        OverwrittenIsIgnored(other, thumb, r);
      }
    } else {
      var other := instr.(fires := (w: World) => thumb || instr.cond >= 0xE, effect := (s, w) => w,
                          result := (d, s: map<nat, u32>, w) => if r in s then s[r] else 0);
      assert Like(other, instr, thumb);
      var zeros := seq(15, i => 0 as u32);
      assert ApartFrom(zeros, zeros[r := 1], r);
      assert Step(other, zeros, World(map[], 0)).0[r] == 0 && Step(other, zeros[r := 1], World(map[], 0)).0[r] == 1;
      assert !Ignores(other, r);
    }
  }

  lemma OverwrittenIsIgnored(instr: Instr, thumb: bool, r: nat)
    requires r < 15 && r in instr.Overwritten(thumb) && FiresAlways(thumb, instr)
    ensures Ignores(instr, r)
  {
    forall g, h, w | ApartFrom(g, h, r) ensures Step(instr, g, w) == Step(instr, h, w) {
      assert Operands(instr, g) == Operands(instr, h);
      assert Step(instr, g, w).0 == Step(instr, h, w).0;
    }
  }

  /** The first `n` instructions, executed directly on guest registers 0 to 14. */
  function DirectRun(instrs: seq<Instr>, n: nat, g: seq<u32>, w: World): (end: (seq<u32>, World))
    requires n <= |instrs| && |g| == 15
    ensures |end.0| == 15
  {
    if n == 0 then (g, w)
    else
      var before := DirectRun(instrs, n - 1, g, w);
      Step(instrs[n - 1], before.0, before.1)
  }

  lemma DirectRunStarts(instrs: seq<Instr>, g: seq<u32>, w: World)
    requires |g| == 15
    ensures DirectRun(instrs, 0, g, w) == (g, w)
  {
  }

  lemma DirectRunStep(instrs: seq<Instr>, n: nat, g: seq<u32>, w: World)
    requires n < |instrs| && |g| == 15
    ensures var before := DirectRun(instrs, n, g, w);
            DirectRun(instrs, n + 1, g, w) == Step(instrs[n], before.0, before.1)
  {
  }

  lemma FiresIs(thumb: bool, instrs: seq<Instr>, i: nat)
    requires i < |instrs| && forall i <- instrs, w :: thumb || i.cond >= 0xE ==> i.fires(w)
    ensures FiresAlways(thumb, instrs[i])
  {
    assert instrs[i] in instrs;
  }

  lemma ConstantsHold(thumb: bool, instr: Instr, g: seq<u32>, w: World)
    requires |g| == 15 && instr.WellFormed() && FiresAlways(thumb, instr) && instr.Unconditional(thumb)
    ensures forall r <- instr.constants :: r < 15 && Step(instr, g, w).0[r] == instr.constants[r]
  {
    forall r <- instr.constants ensures r < 15 && Step(instr, g, w).0[r] == instr.constants[r] {
      assert instr.result(r, Operands(instr, g), w) == instr.constants[r];
    }
  }

  /** How many of the instructions from `i` to `end` strictly need `reg`. */
  function Rank(instrs: seq<Instr>, i: nat, end: nat, reg: nat): nat
    requires i <= end <= |instrs|
  {
    if i == end then 0
    else Rank(instrs, i, end - 1, reg) + if reg in StrictlyNeeded(instrs[end - 1]) then 1 else 0
  }

  /** The rank of every register, as seen from instruction `i`. */
  function Ranks(instrs: seq<Instr>, i: nat): (ranks: seq<nat>)
    requires i <= |instrs|
    ensures |ranks| == 16
  {
    seq(16, r requires 0 <= r < 16 => Rank(instrs, i, |instrs|, r))
  }

  /** Going from the registers `before` to `after` gives up none that is necessary, and none that
      ranks above one that is kept without being necessary. */
  ghost predicate EvictsLeastRanked(before: set<nat>, after: set<nat>, necessary: set<nat>, ranks: seq<nat>) {
    && (forall e <- before :: e !in after ==> e !in necessary)
    && (forall e <- before, k <- before :: e !in after && k in after && k !in necessary ==>
         e < |ranks| && k < |ranks| && ranks[e] <= ranks[k])
  }

  lemma EvictionStays(before: set<nat>, room: set<nat>, after: set<nat>, necessary: set<nat>, ranks: seq<nat>)
    requires before <= room || EvictsLeastRanked(before, room, necessary, ranks)
    requires forall r <- before :: r in after <==> r in room
    ensures EvictsLeastRanked(before, after, necessary, ranks)
  {
  }

  lemma EvictOne(before: set<nat>, now: set<nat>, least: nat, necessary: set<nat>, ranks: seq<nat>)
    requires now <= before && EvictsLeastRanked(before, now, necessary, ranks)
    requires least in now && least !in necessary && forall r <- now :: r < |ranks|
    requires forall r <- now :: r !in necessary ==> ranks[least] <= ranks[r]
    ensures EvictsLeastRanked(before, now - {least}, necessary, ranks)
  {
  }

  function UsedRegs(instr: Instr): set<nat> {
    instr.srcRegs - {15} + instr.dstRegs
  }

  function StrictlyNeeded(instr: Instr): set<nat> {
    UsedRegs(instr) - instr.notStrictlyNeeded
  }

  /** The registers used by some instruction from `i` to `end`. */
  function FutureNeeded(instrs: seq<Instr>, i: nat, end: nat): set<nat>
    requires i <= end <= |instrs|
  {
    if i == end then {} else FutureNeeded(instrs, i, end - 1) + UsedRegs(instrs[end - 1])
  }

  /** A register is needed in future if this or a later instruction reads or writes it. */
  lemma {:induction false} FutureUses(instrs: seq<Instr>, i: nat, end: nat, r: nat)
    requires i <= end <= |instrs|
    ensures r in FutureNeeded(instrs, i, end) <==>
            exists j :: i <= j < end && ((r != 15 && r in instrs[j].srcRegs) || r in instrs[j].dstRegs)
  {
    if i < end {
      FutureUses(instrs, i, end - 1, r);
    }
  }

  /** Its rank is the number of those that strictly need it. */
  lemma {:induction false} RankCounts(instrs: seq<Instr>, i: nat, end: nat, r: nat)
    requires i <= end <= |instrs|
    ensures Rank(instrs, i, end, r) == |set j | i <= j < end && r !in instrs[j].notStrictlyNeeded
                                          && ((r != 15 && r in instrs[j].srcRegs) || r in instrs[j].dstRegs)|
  {
    var uses := set j | i <= j < end && r !in instrs[j].notStrictlyNeeded
                        && ((r != 15 && r in instrs[j].srcRegs) || r in instrs[j].dstRegs);
    if i < end {
      RankCounts(instrs, i, end - 1, r);
      var before := set j | i <= j < end - 1 && r !in instrs[j].notStrictlyNeeded
                            && ((r != 15 && r in instrs[j].srcRegs) || r in instrs[j].dstRegs);
      if r in StrictlyNeeded(instrs[end - 1]) {
        assert uses == before + {end - 1};
      } else {
        assert uses == before;
      }
    } else {
      assert uses == {};
    }
  }

  lemma {:induction false} RankBound(instrs: seq<Instr>, i: nat, end: nat, reg: nat)
    requires i <= end <= |instrs|
    ensures Rank(instrs, i, end, reg) <= end - i
  {
    if i < end { RankBound(instrs, i, end - 1, reg); }
  }

  lemma RanksBounded(instrs: seq<Instr>, i: nat)
    requires i <= |instrs| <= 32
    ensures forall r :: 0 <= r < 16 ==> Ranks(instrs, i)[r] < 1000
  {
    forall r | 0 <= r < 16 ensures Ranks(instrs, i)[r] < 1000 {
      RankBound(instrs, i, |instrs|, r);
    }
  }

  ghost predicate Distinct(s: seq<nat>) {
    forall i, j :: 0 <= i < j < |s| ==> s[i] != s[j]
  }

  /** A set that covers `n` distinct native registers has at least `n` elements. */
  lemma {:induction false} PigeonHole(order: seq<nat>, n: nat, used: set<int>)
    requires Distinct(order) && n <= |order|
    requires forall i :: 0 <= i < n ==> order[i] in used
    ensures n <= |used|
  {
    if n > 0 {
      PigeonHole(order, n - 1, used - {order[n - 1]});
    }
  }

  lemma SubsetSize(a: set<nat>, b: set<nat>)
    requires a <= b
    ensures |a| <= |b| && |b - a| == |b| - |a| && (|a| == |b| ==> a == b)
  {
    assert b == a + (b - a);
  }

  /** What the cache and the emitted code hold between two instructions. */
  datatype Regs = Regs(
    mapping: seq<int>,
    loaded: set<nat>,
    dirty: set<nat>,
    used: set<int>,
    mem: seq<u32>,
    native: seq<u32>)
  {
    /** The mapping is injective, `used` is its image, and only loaded registers are dirty. */
    ghost predicate Valid(order: seq<nat>) {
      && |mapping| == |mem| == 16
      && Distinct(order) && (forall i :: 0 <= i < |order| ==> order[i] < |native|)
      && (forall r :: 0 <= r < 16 ==> (r in loaded <==> mapping[r] != -1))
      && (forall r <- loaded :: r < 16 && mapping[r] in order && mapping[r] in used)
      && (forall r, s :: 0 <= r < s < 16 && r in loaded && s in loaded ==> mapping[r] != mapping[s])
      && |used| == |loaded|
      && dirty <= loaded - {15}
    }

    /** A guest register as the emitted code sees it at this point. */
    function Guest(r: nat): u32
      requires r < |mem| == |mapping| && (r in dirty ==> 0 <= mapping[r] < |native|)
    {
      if r in dirty then native[mapping[r]] else mem[r]
    }

    /** A loaded register that is not dirty holds its guest value, except those in `pending`. */
    ghost predicate Coherent(order: seq<nat>, pending: set<nat>)
      requires Valid(order)
    {
      forall r <- loaded :: r !in dirty && r !in pending && r < 15 ==> native[mapping[r]] == mem[r]
    }

    /** Both states show the same guest registers, except those in `pending`. */
    ghost predicate SameGuest(order: seq<nat>, other: Regs, pending: set<nat>)
      requires Valid(order) && other.Valid(order)
    {
      forall r: nat :: r < 15 && r !in pending ==> Guest(r) == other.Guest(r)
    }
  }

  /** `s` is well formed and shows the same guest registers as `start`. */
  ghost predicate Shows(order: seq<nat>, s: Regs, start: Regs, pending: set<nat>) {
    s.Valid(order) && start.Valid(order) && s.Coherent(order, pending) && s.SameGuest(order, start, {})
  }

  lemma ShowsItself(order: seq<nat>, s: Regs)
    requires s.Valid(order) && s.Coherent(order, {})
    ensures Shows(order, s, s, {})
  {
  }

  lemma PendingGrows(order: seq<nat>, s: Regs, start: Regs, pending: set<nat>)
    requires Shows(order, s, start, {})
    ensures Shows(order, s, start, pending)
  {
  }

  function Unload(s: Regs, reg: nat): Regs
    requires reg < 16 == |s.mapping| == |s.mem| && 0 <= s.mapping[reg] < |s.native|
  {
    Regs(s.mapping[reg := -1], s.loaded - {reg}, s.dirty - {reg}, s.used - {s.mapping[reg]},
         if reg in s.dirty then s.mem[reg := s.native[s.mapping[reg]]] else s.mem, s.native)
  }

  function Load(s: Regs, reg: nat, nativeReg: nat, loadValue: bool): Regs
    requires reg < 16 == |s.mapping| == |s.mem| && nativeReg < |s.native|
  {
    Regs(s.mapping[reg := nativeReg], s.loaded + {reg}, s.dirty, s.used + {nativeReg}, s.mem,
         if loadValue then s.native[nativeReg := s.mem[reg]] else s.native)
  }

  lemma UnloadKeepsValid(order: seq<nat>, s: Regs, reg: nat)
    requires s.Valid(order) && reg in s.loaded
    ensures Unload(s, reg).Valid(order)
  {
  }

  lemma LoadKeepsValid(order: seq<nat>, s: Regs, reg: nat, nativeReg: nat, loadValue: bool)
    requires s.Valid(order) && reg < 16 && reg !in s.loaded
    requires nativeReg in order && nativeReg !in s.used
    ensures Load(s, reg, nativeReg, loadValue).Valid(order)
  {
    hide Distinct;
    var t := Load(s, reg, nativeReg, loadValue);
    assert forall r <- s.loaded :: t.mapping[r] == s.mapping[r] && s.mapping[r] != nativeReg;
    assert forall r :: 0 <= r < 16 && r != reg ==> t.mapping[r] == s.mapping[r];
  }

  /** The native registers marked used are exactly those that some guest register is mapped to. */
  lemma UsedIsImage(order: seq<nat>, s: Regs)
    requires s.Valid(order)
    ensures s.used == set r | r in s.loaded :: s.mapping[r]
  {
    ImageSize(s.mapping, s.loaded);
    var image := set r | r in s.loaded :: s.mapping[r];
    assert s.used == image + (s.used - image);
  }

  lemma {:induction false} ImageSize(mapping: seq<int>, regs: set<nat>)
    requires forall r <- regs :: r < |mapping|
    requires forall r, s :: 0 <= r < s < |mapping| && r in regs && s in regs ==> mapping[r] != mapping[s]
    ensures |set r | r in regs :: mapping[r]| == |regs|
  {
    if regs != {} {
      var x :| x in regs;
      ImageSize(mapping, regs - {x});
      assert (set r | r in regs :: mapping[r]) == (set r | r in regs - {x} :: mapping[r]) + {mapping[x]};
      assert regs == (regs - {x}) + {x};
    }
  }

  /** Unloading writes a dirty value back first, so no guest register changes. */
  lemma UnloadKeepsGuest(order: seq<nat>, s: Regs, reg: nat, start: Regs, pending: set<nat>)
    requires Shows(order, s, start, pending) && reg in s.loaded
    ensures Shows(order, Unload(s, reg), start, pending)
  {
    UnloadKeepsValid(order, s, reg);
    assert Unload(s, reg).SameGuest(order, s, {});
  }

  /** Loading changes no guest register; a register loaded without its value has to be pending. */
  lemma LoadKeepsGuest(order: seq<nat>, s: Regs, reg: nat, nativeReg: nat, loadValue: bool, start: Regs, pending: set<nat>)
    requires Shows(order, s, start, pending) && reg < 16 && reg !in s.loaded
    requires nativeReg in order && nativeReg !in s.used
    requires loadValue || reg in pending || reg == 15
    ensures nativeReg < |s.native| && Shows(order, Load(s, reg, nativeReg, loadValue), start, pending)
  {
    LoadKeepsValid(order, s, reg, nativeReg, loadValue);
    assert Load(s, reg, nativeReg, loadValue).SameGuest(order, s, {});
  }

  /** The position of the first native register at or after `i` that is not used. */
  function FirstFree(order: seq<nat>, used: set<int>, i: nat): (k: nat)
    requires i <= |order|
    ensures i <= k <= |order| && (k < |order| ==> order[k] !in used)
    ensures forall j :: i <= j < k ==> order[j] in used
    decreases |order| - i
  {
    if i == |order| || order[i] !in used then i else FirstFree(order, used, i + 1)
  }

  /** As long as fewer registers are loaded than there are native ones, one of those is free. */
  lemma FreeNativeRegister(order: seq<nat>, s: Regs)
    requires s.Valid(order) && |s.loaded| < |order|
    ensures FirstFree(order, s.used, 0) < |order|
  {
    if FirstFree(order, s.used, 0) == |order| {
      PigeonHole(order, |order|, s.used);
    }
  }

  /** Marking registers dirty discards what memory holds for them. */
  lemma MarkDirtyKeepsGuest(order: seq<nat>, s: Regs, marked: set<nat>, start: Regs, pending: set<nat>)
    requires Shows(order, s, start, pending) && marked <= s.loaded - {15}
    requires forall r <- s.loaded :: r in pending ==> r == 15 || r in marked
    ensures s.(dirty := s.dirty + marked).Valid(order)
    ensures s.(dirty := s.dirty + marked).Coherent(order, {})
    ensures s.(dirty := s.dirty + marked).SameGuest(order, start, pending)
  {
  }

  /** Eviction finds a victim: more registers are loaded than the instruction itself needs. */
  lemma VictimExists(loaded: set<nat>, necessary: set<nat>, available: nat)
    requires |loaded| + |necessary - loaded| > available >= |necessary|
    ensures exists r :: r in loaded && r !in necessary
  {
    if loaded <= necessary {
      SubsetSize(loaded, necessary);
    }
  }

  /** The registers 0 to 14 that `s` shows. */
  ghost predicate IsGuest(order: seq<nat>, s: Regs, g: seq<u32>, except: set<nat>) {
    s.Valid(order) && |g| == 15 && forall r :: 0 <= r < 15 && r !in except ==> s.Guest(r) == g[r]
  }

  lemma ShownGuest(order: seq<nat>, s: Regs, start: Regs, g: seq<u32>)
    requires Shows(order, s, start, {}) && IsGuest(order, start, g, {})
    ensures IsGuest(order, s, g, {}) && s.Coherent(order, {})
  {
  }

  /** With no dirty register left, memory holds every guest register. */
  lemma CleanIsMemory(order: seq<nat>, s: Regs, g: seq<u32>)
    requires IsGuest(order, s, g, {}) && s.dirty == {}
    ensures s.mem[..15] == g
  {
  }

  /** Where emitted code finds a register: in its native register if there is one. */
  function Read(s: Regs, r: nat): u32
    requires r < 16 == |s.mapping| == |s.mem| && (r in s.loaded ==> 0 <= s.mapping[r] < |s.native|)
  {
    if r in s.loaded then s.native[s.mapping[r]] else s.mem[r]
  }

  function Write(s: Regs, r: nat, v: u32): Regs
    requires r < 16 == |s.mapping| == |s.mem| && (r in s.loaded ==> 0 <= s.mapping[r] < |s.native|)
  {
    if r in s.loaded then s.(native := s.native[s.mapping[r] := v]) else s.(mem := s.mem[r := v])
  }

  /** A coherent state is read as what it shows. */
  lemma ReadIsGuest(order: seq<nat>, s: Regs, g: seq<u32>, except: set<nat>, r: nat)
    requires IsGuest(order, s, g, except) && s.Coherent(order, {}) && r < 15 && r !in except
    ensures Read(s, r) == g[r]
  {
  }

  /** What an executed instruction leaves in registers 0 to 14 once it has written those below `n`. */
  function Partial(instr: Instr, g: seq<u32>, w: World, n: nat): (p: seq<u32>)
    requires |g| == 15
    ensures |p| == 15
  {
    seq(15, r requires 0 <= r < 15 =>
      if r < n && r in instr.dstRegs then instr.result(r, Operands(instr, g), w) else g[r])
  }

  lemma PartialSteps(instr: Instr, g: seq<u32>, w: World)
    requires |g| == 15
    ensures Partial(instr, g, w, 0) == g
    ensures instr.fires(w) ==> Partial(instr, g, w, 15) == Step(instr, g, w).0
    ensures forall n :: 0 <= n < 15 && n in instr.dstRegs ==>
      Partial(instr, g, w, n + 1) == Partial(instr, g, w, n)[n := instr.result(n, Operands(instr, g), w)]
    ensures forall n :: 0 <= n < 15 && n !in instr.dstRegs ==> Partial(instr, g, w, n + 1) == Partial(instr, g, w, n)
  {
  }

  /** Writing a register that is dirty if loaded changes that guest register and no other. */
  lemma WriteIsUpdate(order: seq<nat>, s: Regs, g: seq<u32>, except: set<nat>, r: nat, v: u32)
    requires IsGuest(order, s, g, except) && s.Coherent(order, {}) && r < 15
    requires r in s.loaded ==> r in s.dirty
    ensures IsGuest(order, Write(s, r, v), g[r := v], except - {r}) && Write(s, r, v).Coherent(order, {})
  {
  }

  /** The effect of the emitted copies: the register file in memory and the native registers. */
  class Compiler {
    const R: array<u32>
    const Native: array<u32>

    constructor (r: array<u32>, native: array<u32>)
      ensures R == r && Native == native
    {
      R, Native := r, native;
    }

    method SaveReg(reg: nat, nativeReg: nat)
      requires reg < R.Length && nativeReg < Native.Length
      modifies R
      ensures R[..] == old(R[..])[reg := old(Native[nativeReg])]
    {
      R[reg] := Native[nativeReg];
    }

    method LoadReg(reg: nat, nativeReg: nat)
      requires reg < R.Length && nativeReg < Native.Length
      modifies Native
      ensures Native[..] == old(Native[..])[nativeReg := old(R[reg])]
    {
      Native[nativeReg] := R[reg];
    }
  }

  class RegisterCache {
    const NativeRegAllocOrder: seq<nat>
    const PCAllocatableAsSrc: bool
    const compiler: Compiler
    const instrs: seq<Instr>
    const Mapping: array<int>
    const LiteralValues: array<u32>

    var LiteralsLoaded: set<nat>
    var NativeRegsUsed: set<int>
    var LoadedRegs: set<nat>
    var DirtyRegs: set<nat>

    ghost function View(): Regs
      reads this, Mapping, compiler.R, compiler.Native
    {
      Regs(Mapping[..], LoadedRegs, DirtyRegs, NativeRegsUsed, compiler.R[..], compiler.Native[..])
    }

    ghost predicate Valid()
      reads this, Mapping, compiler.R, compiler.Native
    {
      && compiler.R != compiler.Native && compiler.R != LiteralValues && compiler.Native != LiteralValues
      && Mapping as object != compiler.R && Mapping as object != compiler.Native && Mapping as object != LiteralValues
      && Mapping.Length == compiler.R.Length == LiteralValues.Length == 16
      && (forall i <- instrs :: i.WellFormed()) && |instrs| <= 32
      && (forall r <- LiteralsLoaded :: r < 16) && (forall r <- LoadedRegs :: r < 16) && DirtyRegs <= LoadedRegs
      && |LoadedRegs| <= |NativeRegAllocOrder|
      && View().Valid(NativeRegAllocOrder)
    }

    constructor (compiler: Compiler, instrs: seq<Instr>, order: seq<nat>, pcAllocatableAsSrc: bool)
      requires compiler.R.Length == 16 && compiler.R != compiler.Native
      requires Distinct(order) && forall i :: 0 <= i < |order| ==> order[i] < compiler.Native.Length
      requires |instrs| <= 32 && forall i <- instrs :: i.WellFormed()
      ensures this.compiler == compiler && this.instrs == instrs && fresh(Mapping) && fresh(LiteralValues)
      ensures NativeRegAllocOrder == order && PCAllocatableAsSrc == pcAllocatableAsSrc
      ensures Valid() && LoadedRegs == {} && LiteralsLoaded == {}
    {
      this.compiler, this.instrs, NativeRegAllocOrder := compiler, instrs, order;
      PCAllocatableAsSrc := pcAllocatableAsSrc;
      Mapping := new int[16](_ => -1);
      LiteralValues := new u32[16](_ => 0);
      LiteralsLoaded, NativeRegsUsed, LoadedRegs, DirtyRegs := {}, {}, {}, {};
    }

    method UnloadRegister(reg: nat)
      requires Valid() && reg in LoadedRegs
      modifies this`DirtyRegs, this`LoadedRegs, this`NativeRegsUsed, Mapping, compiler.R
      ensures LoadedRegs == old(LoadedRegs) - {reg} && DirtyRegs == old(DirtyRegs) - {reg}
      ensures Valid() && View() == Unload(old(View()), reg)
    {
      if reg in DirtyRegs {
        compiler.SaveReg(reg, Mapping[reg]);
      }
      DirtyRegs := DirtyRegs - {reg};
      LoadedRegs := LoadedRegs - {reg};
      NativeRegsUsed := NativeRegsUsed - {Mapping[reg]};
      Mapping[reg] := -1;
      assert View() == Unload(old(View()), reg);
      UnloadKeepsValid(NativeRegAllocOrder, old(View()), reg);
    }

    method Assign(reg: nat, nativeReg: nat, loadValue: bool)
      requires Valid() && reg < 16 && reg !in LoadedRegs && |LoadedRegs| < |NativeRegAllocOrder|
      requires nativeReg in NativeRegAllocOrder && nativeReg !in NativeRegsUsed
      modifies this`LoadedRegs, this`NativeRegsUsed, Mapping, compiler.Native
      ensures Valid() && nativeReg < compiler.Native.Length
      ensures View() == Load(old(View()), reg, nativeReg, loadValue)
    {
      Mapping[reg] := nativeReg;
      NativeRegsUsed := NativeRegsUsed + {nativeReg};
      LoadedRegs := LoadedRegs + {reg};
      if loadValue {
        compiler.LoadReg(reg, nativeReg);
      }
      assert View() == Load(old(View()), reg, nativeReg, loadValue);
      LoadKeepsValid(NativeRegAllocOrder, old(View()), reg, nativeReg, loadValue);
    }

    /** Takes the first free native register; there is one, so the search never runs out. */
    method LoadRegister(reg: nat, loadValue: bool)
      requires Valid() && reg < 16 && reg !in LoadedRegs && |LoadedRegs| < |NativeRegAllocOrder|
      modifies this`LoadedRegs, this`NativeRegsUsed, Mapping, compiler.Native
      ensures LoadedRegs == old(LoadedRegs) + {reg}
      ensures Valid() && FirstFree(NativeRegAllocOrder, old(NativeRegsUsed), 0) < |NativeRegAllocOrder|
      ensures View() == Load(old(View()), reg,
                             NativeRegAllocOrder[FirstFree(NativeRegAllocOrder, old(NativeRegsUsed), 0)], loadValue)
    {
      FreeNativeRegister(NativeRegAllocOrder, View());
      for i := 0 to |NativeRegAllocOrder|
        invariant FirstFree(NativeRegAllocOrder, NativeRegsUsed, 0) == FirstFree(NativeRegAllocOrder, NativeRegsUsed, i)
        invariant View() == old(View())
      {
        var nativeReg := NativeRegAllocOrder[i];
        if nativeReg !in NativeRegsUsed {
          Assign(reg, nativeReg, loadValue);
          return;
        }
      }
      assert false;
    }

    method UnloadFor(reg: nat, ghost start: Regs)
      requires Valid() && reg in LoadedRegs && Shows(NativeRegAllocOrder, View(), start, {})
      modifies this`DirtyRegs, this`LoadedRegs, this`NativeRegsUsed, Mapping, compiler.R
      ensures Valid() && Shows(NativeRegAllocOrder, View(), start, {})
      ensures LoadedRegs == old(LoadedRegs) - {reg} && DirtyRegs == old(DirtyRegs) - {reg}
      ensures |LoadedRegs| == |old(LoadedRegs)| - 1
    {
      hide Shows, Regs.Valid, Unload;
      UnloadKeepsGuest(NativeRegAllocOrder, View(), reg, start, {});
      UnloadRegister(reg);
    }

    method UnloadAll(regs: set<nat>, ghost start: Regs)
      requires Valid() && regs <= LoadedRegs && Shows(NativeRegAllocOrder, View(), start, {})
      requires forall r <- regs :: r < 16
      modifies this`DirtyRegs, this`LoadedRegs, this`NativeRegsUsed, Mapping, compiler.R
      ensures Valid() && Shows(NativeRegAllocOrder, View(), start, {})
      ensures LoadedRegs == old(LoadedRegs) - regs && DirtyRegs == old(DirtyRegs) - regs
    {
      hide *;
      ghost var done: set<nat> := {};
      for reg := 0 to 16
        invariant Valid() && Shows(NativeRegAllocOrder, View(), start, {})
        invariant done <= regs && forall r <- regs :: r in done <==> r < reg
        invariant LoadedRegs == old(LoadedRegs) - done && DirtyRegs == old(DirtyRegs) - done
      {
        if reg in regs {
          UnloadFor(reg, start);
          done := done + {reg};
        }
      }
      assert done == regs;
    }

    /** Counts for every register how often this and later instructions strictly need it. */
    method RankFutureUses(i: nat) returns (ranking: array<nat>, futureNeeded: set<nat>)
      requires i <= |instrs|
      ensures fresh(ranking) && ranking.Length == 16
      ensures ranking[..] == Ranks(instrs, i)
      ensures futureNeeded == FutureNeeded(instrs, i, |instrs|)
    {
      ranking := new nat[16](_ => 0);
      futureNeeded := {};
      for j := i to |instrs|
        invariant forall r :: 0 <= r < 16 ==> ranking[r] == Rank(instrs, i, j, r)
        invariant futureNeeded == FutureNeeded(instrs, i, j)
      {
        var regsNeeded := UsedRegs(instrs[j]);
        futureNeeded := futureNeeded + regsNeeded;
        regsNeeded := regsNeeded - instrs[j].notStrictlyNeeded;
        for reg := 0 to 16
          invariant forall r :: 0 <= r < 16 ==>
            ranking[r] == Rank(instrs, i, j, r) + if r < reg && r in regsNeeded then 1 else 0
        {
          if reg in regsNeeded {
            ranking[reg] := ranking[reg] + 1;
          }
        }
      }
    }

    /** The lowest-ranked loaded register that the instruction does not need; the first of equals. */
    method PickVictim(loadedSet: set<nat>, necessaryRegs: set<nat>, ranking: array<nat>) returns (leastReg: nat)
      requires ranking.Length == 16 && forall r :: 0 <= r < 16 ==> ranking[r] < 1000
      requires forall r <- loadedSet :: r < 16
      requires exists r :: r in loadedSet && r !in necessaryRegs
      ensures leastReg in loadedSet && leastReg !in necessaryRegs && leastReg < 16
      ensures forall r <- loadedSet :: r !in necessaryRegs ==> ranking[leastReg] <= ranking[r]
      ensures forall r <- loadedSet :: r !in necessaryRegs && r < leastReg ==> ranking[leastReg] < ranking[r]
    {
      var least := -1;
      var rank := 1000;
      for reg := 0 to 16
        invariant forall r <- loadedSet :: r !in necessaryRegs && r < reg ==> least != -1 && rank <= ranking[r]
        invariant least == -1 ==> rank == 1000
        invariant least != -1 ==> 0 <= least < reg && least in loadedSet && least !in necessaryRegs
        invariant least != -1 ==> rank == ranking[least]
        invariant forall r <- loadedSet :: r !in necessaryRegs && r < least ==> rank < ranking[r]
      {
        if reg in loadedSet && reg !in necessaryRegs && ranking[reg] < rank {
          least := reg;
          rank := ranking[reg];
        }
      }
      leastReg := least;
    }

    /** Unloads registers until `neededCount` more fit. Only least-ranked registers go,
        none of them necessary, and no more of them than it takes. */
    method MakeRoom(necessaryRegs: set<nat>, ranking: array<nat>, ghost start: Regs)
      requires Valid() && Shows(NativeRegAllocOrder, View(), start, {})
      requires ranking.Length == 16 && forall r :: 0 <= r < 16 ==> ranking[r] < 1000
      requires Mapping as object != ranking && compiler.R as object != ranking
      requires |necessaryRegs| <= |NativeRegAllocOrder| && forall r <- LoadedRegs :: r < 16
      modifies this`DirtyRegs, this`LoadedRegs, this`NativeRegsUsed, Mapping, compiler.R
      ensures Valid() && Shows(NativeRegAllocOrder, View(), start, {})
      ensures LoadedRegs <= old(LoadedRegs) && necessaryRegs - LoadedRegs == necessaryRegs - old(LoadedRegs)
      ensures EvictsLeastRanked(old(LoadedRegs), LoadedRegs, necessaryRegs, ranking[..])
      ensures |LoadedRegs| + |necessaryRegs - LoadedRegs| <= |NativeRegAllocOrder|
      ensures LoadedRegs == old(LoadedRegs)
        || (|LoadedRegs| + |necessaryRegs - LoadedRegs| == |NativeRegAllocOrder|
            && |old(LoadedRegs)| + |necessaryRegs - old(LoadedRegs)| > |NativeRegAllocOrder|)
    {
      hide *;
      EvictionStays(LoadedRegs, LoadedRegs, LoadedRegs, necessaryRegs, ranking[..]);
      ghost var missing := necessaryRegs - LoadedRegs;
      var neededCount := |necessaryRegs - LoadedRegs|;
      while |LoadedRegs| + neededCount > |NativeRegAllocOrder|
        invariant Valid() && Shows(NativeRegAllocOrder, View(), start, {})
        invariant LoadedRegs <= old(LoadedRegs) && (forall r <- LoadedRegs :: r < 16)
        invariant necessaryRegs - LoadedRegs == missing
        invariant EvictsLeastRanked(old(LoadedRegs), LoadedRegs, necessaryRegs, ranking[..])
        invariant LoadedRegs == old(LoadedRegs)
          || (|LoadedRegs| + neededCount >= |NativeRegAllocOrder| && |old(LoadedRegs)| + neededCount > |NativeRegAllocOrder|)
        decreases |LoadedRegs|
      {
        VictimExists(LoadedRegs, necessaryRegs, |NativeRegAllocOrder|);
        var leastReg := PickVictim(LoadedRegs, necessaryRegs, ranking);
        EvictOne(old(LoadedRegs), LoadedRegs, leastReg, necessaryRegs, ranking[..]);
        assert necessaryRegs - (LoadedRegs - {leastReg}) == necessaryRegs - LoadedRegs;
        UnloadFor(leastReg, start);
      }
    }

    /** Loads `reg` for an instruction that overwrites the registers in `pending` unseen. */
    method LoadFor(reg: nat, loadValue: bool, ghost start: Regs, ghost pending: set<nat>)
      requires Valid() && reg < 16 && reg !in LoadedRegs && |LoadedRegs| < |NativeRegAllocOrder|
      requires Shows(NativeRegAllocOrder, View(), start, pending)
      requires loadValue || reg in pending || reg == 15
      modifies this`LoadedRegs, this`NativeRegsUsed, Mapping, compiler.Native
      ensures Valid() && Shows(NativeRegAllocOrder, View(), start, pending)
      ensures LoadedRegs == old(LoadedRegs) + {reg} && |LoadedRegs| == |old(LoadedRegs)| + 1
    {
      ghost var before := View();
      LoadRegister(reg, loadValue);
      ghost var n := NativeRegAllocOrder[FirstFree(NativeRegAllocOrder, old(NativeRegsUsed), 0)];
      hide *;
      LoadKeepsGuest(NativeRegAllocOrder, before, reg, n, loadValue, start, pending);
    }

    /** Loads every register in `regs`; there is room for all of them. */
    method LoadAll(regs: set<nat>, needValueLoaded: set<nat>, ghost start: Regs, ghost pending: set<nat>)
      requires Valid() && Shows(NativeRegAllocOrder, View(), start, pending)
      requires regs !! LoadedRegs && forall r <- regs :: r < 16 && (r in needValueLoaded || r in pending || r == 15)
      requires |LoadedRegs| + |regs| <= |NativeRegAllocOrder|
      modifies this`LoadedRegs, this`NativeRegsUsed, Mapping, compiler.Native
      ensures Valid() && Shows(NativeRegAllocOrder, View(), start, pending)
      ensures LoadedRegs == old(LoadedRegs) + regs && |LoadedRegs| == |old(LoadedRegs)| + |regs|
    {
      hide *;
      ghost var done: set<nat> := {};
      for reg := 0 to 16
        invariant Valid() && Shows(NativeRegAllocOrder, View(), start, pending)
        invariant done <= regs && forall r <- regs :: r in done <==> r < reg
        invariant LoadedRegs == old(LoadedRegs) + done && |LoadedRegs| == |old(LoadedRegs)| + |done|
        invariant |done| <= |regs|
      {
        if reg in regs {
          SubsetSize(done + {reg}, regs);
          LoadFor(reg, reg in needValueLoaded, start, pending);
          done := done + {reg};
        }
      }
      assert done == regs;
    }

    /** Loads registers from `regs`, lowest first, while a native register is free. */
    method LoadWhileRoom(regs: set<nat>, needValueLoaded: set<nat>, ghost start: Regs, ghost pending: set<nat>)
      requires Valid() && Shows(NativeRegAllocOrder, View(), start, pending)
      requires |LoadedRegs| <= |NativeRegAllocOrder|
      requires regs !! LoadedRegs && forall r <- regs :: r < 16 && (r in needValueLoaded || r in pending || r == 15)
      modifies this`LoadedRegs, this`NativeRegsUsed, Mapping, compiler.Native
      ensures Valid() && Shows(NativeRegAllocOrder, View(), start, pending)
      ensures old(LoadedRegs) <= LoadedRegs <= old(LoadedRegs) + regs && |LoadedRegs| <= |NativeRegAllocOrder|
      ensures |LoadedRegs| < |NativeRegAllocOrder| ==> regs <= LoadedRegs
    {
      hide *;
      if regs != {} && |LoadedRegs| < |NativeRegAllocOrder| {
        var left := |NativeRegAllocOrder| - |LoadedRegs|;
        ghost var done: set<nat> := {};
        for reg := 0 to 16
          invariant Valid() && Shows(NativeRegAllocOrder, View(), start, pending)
          invariant done <= regs && forall r <- regs :: r in done <==> r < reg
          invariant LoadedRegs == old(LoadedRegs) + done
          invariant 0 <= left == |NativeRegAllocOrder| - |LoadedRegs|
        {
          if reg in regs {
            if left == 0 { return; }
            left := left - 1;
            LoadFor(reg, reg in needValueLoaded, start, pending);
            done := done + {reg};
          }
        }
        assert done == regs;
      }
    }

    method MarkDirty(marked: set<nat>, ghost start: Regs, ghost pending: set<nat>)
      requires Valid() && Shows(NativeRegAllocOrder, View(), start, pending) && marked <= LoadedRegs - {15}
      requires forall r <- LoadedRegs :: r in pending ==> r == 15 || r in marked
      modifies this`DirtyRegs
      ensures Valid() && DirtyRegs == old(DirtyRegs) + marked
      ensures start.Valid(NativeRegAllocOrder)
      ensures View().Coherent(NativeRegAllocOrder, {}) && View().SameGuest(NativeRegAllocOrder, start, pending)
    {
      ghost var s := View();
      MarkDirtyKeepsGuest(NativeRegAllocOrder, s, marked, start, pending);
      DirtyRegs := DirtyRegs + marked;
      assert View() == s.(dirty := s.dirty + marked);
    }

    /** Drops register 15, the literals that instruction `i` overwrites, and the registers never used again. */
    method DropUnused(i: nat) returns (ranking: array<nat>, futureNeeded: set<nat>)
      requires Valid() && i < |instrs| && View().Coherent(NativeRegAllocOrder, {})
      modifies this, Mapping, compiler.R
      ensures Valid() && Shows(NativeRegAllocOrder, View(), old(View()), {})
      ensures fresh(ranking) && ranking[..] == Ranks(instrs, i) && futureNeeded == FutureNeeded(instrs, i, |instrs|)
      ensures forall r :: 0 <= r < ranking.Length ==> ranking[r] < 1000
      ensures LoadedRegs == (old(LoadedRegs) - {15}) * futureNeeded
      ensures |LoadedRegs| <= |NativeRegAllocOrder| && (forall r <- LoadedRegs :: r < 16) && instrs[i].WellFormed()
      ensures LiteralsLoaded == old(LiteralsLoaded) - instrs[i].dstRegs
    {
      hide *;
      ghost var start := View();
      ViewIsValid();
      ShowsItself(NativeRegAllocOrder, start);
      RanksBounded(instrs, i);
      if 15 in LoadedRegs {
        UnloadAll({15}, start);
      }
      DropLiterals(instrs[i].dstRegs);
      ranking, futureNeeded := RankFutureUses(i);
      UnloadAll(LoadedRegs - futureNeeded, start);
      ViewIsValid();
    }

    method DropLiterals(regs: set<nat>)
      requires Valid()
      modifies this`LiteralsLoaded
      ensures Valid() && View() == old(View()) && LiteralsLoaded == old(LiteralsLoaded) - regs
    {
      hide Regs.Valid;
      LiteralsLoaded := LiteralsLoaded - regs;
    }

    lemma ViewIsValid()
      requires Valid()
      ensures View().Valid(NativeRegAllocOrder) && |instrs| <= 32 && |LoadedRegs| <= |NativeRegAllocOrder|
      ensures (forall r <- LoadedRegs :: r < 16) && (forall j | 0 <= j < |instrs| :: instrs[j].WellFormed())
    {
      hide Regs.Valid;
    }

    /** Brings the registers of instruction `i` into native registers. No guest register changes,
        except those that the instruction overwrites without looking at them. */
    method Prepare(thumb: bool, i: nat)
      requires Valid() && i < |instrs| && View().Coherent(NativeRegAllocOrder, {})
      requires |instrs[i].Necessary(PCAllocatableAsSrc)| <= |NativeRegAllocOrder|
      modifies this, Mapping, compiler.R, compiler.Native
      ensures Valid() && View().Coherent(NativeRegAllocOrder, {}) && old(View()).Valid(NativeRegAllocOrder)
      ensures View().SameGuest(NativeRegAllocOrder, old(View()), instrs[i].Overwritten(thumb))
      ensures instrs[i].Necessary(PCAllocatableAsSrc) <= LoadedRegs && |LoadedRegs| <= |NativeRegAllocOrder|
      ensures LoadedRegs * instrs[i].dstRegs - {15} <= DirtyRegs
      ensures LiteralsLoaded == old(LiteralsLoaded) - instrs[i].dstRegs
      // what is not strictly needed now, but used by this or a later instruction, is loaded as far as there is room
      ensures instrs[i].notStrictlyNeeded * FutureNeeded(instrs, i, |instrs|) <= LoadedRegs
        || |LoadedRegs| == |NativeRegAllocOrder|
      // eviction: among the registers still of use, only least-ranked ones go, and only for want of room
      ensures var kept := (old(LoadedRegs) - {15}) * FutureNeeded(instrs, i, |instrs|);
        && EvictsLeastRanked(kept, LoadedRegs, instrs[i].Necessary(PCAllocatableAsSrc), Ranks(instrs, i))
        && LoadedRegs <= kept + instrs[i].Necessary(PCAllocatableAsSrc)
                         + instrs[i].notStrictlyNeeded * FutureNeeded(instrs, i, |instrs|)
        && (kept <= LoadedRegs || |kept| + |instrs[i].Necessary(PCAllocatableAsSrc) - kept| > |LoadedRegs| == |NativeRegAllocOrder|)
    {
      hide *;
      ghost var start := View();
      var instr := instrs[i];
      var ranking, futureNeeded := DropUnused(i);
      ghost var kept := LoadedRegs;
      LoadNecessary(thumb, instr, ranking, start);
      ghost var room := LoadedRegs;
      LoadNotStrictlyNeeded(thumb, instr, futureNeeded, start);
      EvictionStays(kept, room, LoadedRegs, instr.Necessary(PCAllocatableAsSrc), Ranks(instrs, i));
      OverwrittenIsWritten(instr, thumb);
      MarkDirty(LoadedRegs * instr.dstRegs - {15}, start, instr.Overwritten(thumb));
    }

    method LoadNecessary(thumb: bool, instr: Instr, ranking: array<nat>, ghost start: Regs)
      requires Valid() && instr.WellFormed() && Shows(NativeRegAllocOrder, View(), start, {})
      requires |instr.Necessary(PCAllocatableAsSrc)| <= |NativeRegAllocOrder|
      requires |LoadedRegs| <= |NativeRegAllocOrder| && forall r <- LoadedRegs :: r < 16
      requires ranking.Length == 16 && forall r :: 0 <= r < 16 ==> ranking[r] < 1000
      requires Mapping as object != ranking && compiler.R as object != ranking && compiler.Native as object != ranking
      modifies this`DirtyRegs, this`LoadedRegs, this`NativeRegsUsed, Mapping, compiler.R, compiler.Native
      ensures Valid() && Shows(NativeRegAllocOrder, View(), start, instr.Overwritten(thumb))
      ensures instr.Necessary(PCAllocatableAsSrc) <= LoadedRegs <= old(LoadedRegs) + instr.Necessary(PCAllocatableAsSrc)
      ensures |LoadedRegs| <= |NativeRegAllocOrder|
      ensures EvictsLeastRanked(old(LoadedRegs), LoadedRegs, instr.Necessary(PCAllocatableAsSrc), ranking[..])
      ensures old(LoadedRegs) <= LoadedRegs
        || |old(LoadedRegs)| + |instr.Necessary(PCAllocatableAsSrc) - old(LoadedRegs)| > |LoadedRegs| == |NativeRegAllocOrder|
    {
      hide *;
      LoadedUnseen(instr, thumb, PCAllocatableAsSrc);
      var necessaryRegs := instr.Necessary(PCAllocatableAsSrc);
      var needToBeLoaded := necessaryRegs - LoadedRegs;
      ghost var room := LoadedRegs;
      PendingGrows(NativeRegAllocOrder, View(), start, instr.Overwritten(thumb));
      if needToBeLoaded != {} {
        MakeRoom(necessaryRegs, ranking, start);
        PendingGrows(NativeRegAllocOrder, View(), start, instr.Overwritten(thumb));
        room := LoadedRegs;
        LoadAll(needToBeLoaded, if instr.Unconditional(thumb) then instr.srcRegs else needToBeLoaded, start, instr.Overwritten(thumb));
      }
      assert forall r <- necessaryRegs :: r in needToBeLoaded || r in old(LoadedRegs);
      EvictionStays(old(LoadedRegs), room, LoadedRegs, necessaryRegs, ranking[..]);
    }

    method LoadNotStrictlyNeeded(thumb: bool, instr: Instr, futureNeeded: set<nat>, ghost start: Regs)
      requires Valid() && instr.WellFormed() && Shows(NativeRegAllocOrder, View(), start, instr.Overwritten(thumb))
      requires |LoadedRegs| <= |NativeRegAllocOrder|
      modifies this`LoadedRegs, this`NativeRegsUsed, Mapping, compiler.Native
      ensures Valid() && Shows(NativeRegAllocOrder, View(), start, instr.Overwritten(thumb))
      ensures old(LoadedRegs) <= LoadedRegs && |LoadedRegs| <= |NativeRegAllocOrder|
      ensures |old(LoadedRegs)| == |NativeRegAllocOrder| ==> LoadedRegs == old(LoadedRegs)
      ensures LoadedRegs <= old(LoadedRegs) + instr.notStrictlyNeeded * futureNeeded
      ensures instr.notStrictlyNeeded * futureNeeded <= LoadedRegs || |LoadedRegs| == |NativeRegAllocOrder|
    {
      hide *;
      LoadedUnseen(instr, thumb, PCAllocatableAsSrc);
      var loadRegs := instr.notStrictlyNeeded * futureNeeded - LoadedRegs;
      LoadWhileRoom(loadRegs, if instr.Unconditional(thumb) then instr.srcRegs else loadRegs, start, instr.Overwritten(thumb));
      SubsetSize(old(LoadedRegs), LoadedRegs);
    }

    /** Emitted code finds a register in its native register; only what an instruction does not strictly need may
        be in memory. */
    method ReadReg(instr: Instr, reg: nat) returns (v: u32)
      requires Valid() && reg < 16 && (reg in LoadedRegs || reg in instr.notStrictlyNeeded)
      ensures v == Read(View(), reg)
    {
      v := if reg in LoadedRegs then compiler.Native[Mapping[reg]] else compiler.R[reg];
    }

    method WriteReg(instr: Instr, reg: nat, v: u32)
      requires Valid() && reg < 16 && (reg in LoadedRegs || reg in instr.notStrictlyNeeded)
      modifies compiler.R, compiler.Native
      ensures Valid() && View() == Write(old(View()), reg, v)
    {
      if reg in LoadedRegs {
        compiler.Native[Mapping[reg]] := v;
      } else {
        compiler.R[reg] := v;
      }
      assert View() == Write(old(View()), reg, v);
    }

    method ReadOperands(instr: Instr, ghost g: seq<u32>, ghost except: set<nat>) returns (operands: map<nat, u32>)
      requires Valid() && View().Valid(NativeRegAllocOrder) && View().Coherent(NativeRegAllocOrder, {})
      requires IsGuest(NativeRegAllocOrder, View(), g, except) && |g| == 15 && instr.srcRegs !! except
      requires MappedFor(instr, LoadedRegs)
      ensures operands == Operands(instr, g)
    {
      hide Regs.Valid, Regs.Coherent, IsGuest, Read;
      operands := map[];
      for r := 0 to 15
        invariant operands == map k | 0 <= k < r && k in instr.srcRegs :: g[k]
      {
        if r in instr.srcRegs {
          ReadIsGuest(NativeRegAllocOrder, View(), g, except, r);
          var v := ReadReg(instr, r);
          operands := operands[r := v];
        }
      }
    }

    /** The emitted code of a prepared instruction. */
    method Execute(thumb: bool, instr: Instr, w: World, ghost g: seq<u32>) returns (w': World)
      requires Valid() && |g| == 15 && View().Valid(NativeRegAllocOrder) && View().Coherent(NativeRegAllocOrder, {})
      requires IsGuest(NativeRegAllocOrder, View(), g, instr.Overwritten(thumb))
      requires LoadedRegs * instr.dstRegs - {15} <= DirtyRegs && FiresAlways(thumb, instr) && MappedFor(instr, LoadedRegs)
      modifies compiler.R, compiler.Native
      ensures Valid() && View().Valid(NativeRegAllocOrder) && View().Coherent(NativeRegAllocOrder, {})
      ensures IsGuest(NativeRegAllocOrder, View(), Step(instr, g, w).0, {}) && w' == Step(instr, g, w).1
    {
      var operands := ReadOperands(instr, g, instr.Overwritten(thumb));
      w' := w;
      if instr.fires(w) {
        hide Regs.Valid, Regs.Coherent, IsGuest, Write, Partial;
        PartialSteps(instr, g, w);
        ghost var except := instr.Overwritten(thumb);
        for r := 0 to 15
          invariant Valid() && View().Valid(NativeRegAllocOrder) && View().Coherent(NativeRegAllocOrder, {})
          invariant IsGuest(NativeRegAllocOrder, View(), Partial(instr, g, w, r), except)
          invariant forall k <- except :: k in instr.dstRegs && r <= k
        {
          if r in instr.dstRegs {
            WriteIsUpdate(NativeRegAllocOrder, View(), Partial(instr, g, w, r), except, r, instr.result(r, operands, w));
            WriteReg(instr, r, instr.result(r, operands, w));
            except := except - {r};
          }
        }
        w' := instr.effect(operands, w);
      } else {
        SkippedIsSeen(thumb, instr, w);
      }
    }

    /** The cache shows the guest registers `g`, and every literal marked loaded is one of them. */
    ghost predicate Tracks(g: seq<u32>)
      reads this, Mapping, compiler.R, compiler.Native, LiteralValues
    {
      && Valid()
      && IsGuest(NativeRegAllocOrder, View(), g, {})
      && View().Coherent(NativeRegAllocOrder, {})
      && (forall r <- LiteralsLoaded :: r < 15 ==> LiteralValues[r] == g[r])
    }

    method PutLiteral(reg: nat, val: u32, ghost g: seq<u32>)
      requires Tracks(g) && reg < 15 && val == g[reg]
      modifies this`LiteralsLoaded, LiteralValues
      ensures Tracks(g) && LiteralsLoaded == old(LiteralsLoaded) + {reg} && LiteralValues[reg] == val
      ensures forall r :: 0 <= r < LiteralValues.Length && r != reg ==> LiteralValues[r] == old(LiteralValues[r])
    {
      LiteralsLoaded := LiteralsLoaded + {reg};
      LiteralValues[reg] := val;
    }

    /** Writes back what is dirty before leaving the block early; the cache itself stays as it is. */
    method PrepareExit(ghost g: seq<u32>)
      requires Tracks(g)
      modifies compiler.R
      ensures compiler.R[..15] == g
    {
      for reg := 0 to 16
        invariant forall r :: 0 <= r < 15 && (r < reg || r !in DirtyRegs) ==> compiler.R[r] == g[r]
      {
        if reg in DirtyRegs {
          compiler.SaveReg(reg, Mapping[reg]);
        }
      }
    }

    method Flush(ghost g: seq<u32>)
      requires Tracks(g)
      modifies this, Mapping, compiler.R
      ensures Tracks(g) && LoadedRegs == {} && LiteralsLoaded == {} && compiler.R[..15] == g
    {
      hide Shows, Regs.Valid, Regs.Coherent, Regs.SameGuest, IsGuest;
      ghost var start := View();
      ShowsItself(NativeRegAllocOrder, start);
      UnloadAll(LoadedRegs, start);
      ShownGuest(NativeRegAllocOrder, View(), start, g);
      CleanIsMemory(NativeRegAllocOrder, View(), g);
      LiteralsLoaded := {};
    }

    /** An instruction that the recompiler leaves to the interpreter works on the register file itself. */
    method Interpret(instr: Instr, w: World, ghost g: seq<u32>) returns (w': World)
      requires Tracks(g) && |g| == 15 && LoadedRegs == {} && LiteralsLoaded == {}
      modifies compiler.R
      ensures Tracks(Step(instr, g, w).0) && w' == Step(instr, g, w).1
    {
      var before := compiler.R[..15];
      assert before == g;
      var next := Step(instr, before, w);
      for r := 0 to 15
        invariant forall k :: 0 <= k < r ==> compiler.R[k] == next.0[k]
      {
        compiler.R[r] := next.0[r];
      }
      w' := next.1;
    }

    /** Runs the block up to instruction `exitAt` and leaves it there: through `PrepareExit` from a
        branch within the block, through `Flush` at its end. The register file in memory then holds
        what direct execution computes. */
    method RunBlock(thumb: bool, exitAt: nat, w: World) returns (w': World)
      requires Valid() && LoadedRegs == {} && LiteralsLoaded == {} && exitAt <= |instrs|
      requires forall i <- instrs :: |i.Necessary(PCAllocatableAsSrc)| <= |NativeRegAllocOrder|
      requires forall i <- instrs, w :: thumb || i.cond >= 0xE ==> i.fires(w)
      modifies this, Mapping, LiteralValues, compiler.R, compiler.Native
      ensures (compiler.R[..15], w') == DirectRun(instrs, exitAt, old(compiler.R[..15]), w)
      ensures exitAt == |instrs| ==> LoadedRegs == {} && LiteralsLoaded == {}
    {
      hide *;
      StartTracks();
      ghost var before := compiler.R[..15];
      ghost var g := before;
      w' := w;
      DirectRunStarts(instrs, before, w);
      for i := 0 to exitAt
        invariant |g| == 15 && Tracks(g) && (g, w') == DirectRun(instrs, i, before, w)
      {
        DirectRunStep(instrs, i, before, w);
        ghost var next := Step(instrs[i], g, w').0;
        assert FiresAlways(thumb, instrs[i]) by { FiresIs(thumb, instrs, i); }
        if instrs[i].canCompile {
          w' := RunCompiled(thumb, i, w', g);
        } else {
          Flush(g);
          w' := Interpret(instrs[i], w', g);
        }
        g := next;
      }
      if exitAt < |instrs| {
        PrepareExit(g);
      } else {
        Flush(g);
      }
    }

    lemma StartTracks()
      requires Valid() && LoadedRegs == {} && LiteralsLoaded == {}
      ensures compiler.R.Length == 16 && Tracks(compiler.R[..15])
    {
    }

    method RunCompiled(thumb: bool, i: nat, w: World, ghost g: seq<u32>) returns (w': World)
      requires i < |instrs| && Tracks(g) && |g| == 15
      requires |instrs[i].Necessary(PCAllocatableAsSrc)| <= |NativeRegAllocOrder| && FiresAlways(thumb, instrs[i])
      modifies this, Mapping, LiteralValues, compiler.R, compiler.Native
      ensures Tracks(Step(instrs[i], g, w).0) && w' == Step(instrs[i], g, w).1
    {
      Prepare(thumb, i);
      NecessaryIsMapped(instrs[i], PCAllocatableAsSrc, LoadedRegs);
      w' := Execute(thumb, instrs[i], w, g);
      if instrs[i].Unconditional(thumb) {
        ConstantsHold(thumb, instrs[i], g, w);
        PutConstants(instrs[i].constants, Step(instrs[i], g, w).0);
      }
    }

    method PutConstants(constants: map<nat, u32>, ghost g: seq<u32>)
      requires Tracks(g) && |g| == 15 && forall r <- constants :: r < 15 && constants[r] == g[r]
      modifies this`LiteralsLoaded, LiteralValues
      ensures Tracks(g) && LiteralsLoaded == old(LiteralsLoaded) + constants.Keys
    {
      hide Tracks;
      for reg := 0 to 15
        invariant Tracks(g) && LiteralsLoaded == old(LiteralsLoaded) + set r | r in constants.Keys && r < reg
      {
        if reg in constants {
          PutLiteral(reg, constants[reg], g);
        }
      }
      assert (set r | r in constants.Keys && r < 15) == constants.Keys;
    }
  }
}
