/**
  Idle-loop detection of the recompiler (`IsIdleLoop` in src/ARMJIT.cpp): a loop that runs again
  from where one iteration left it, over unchanged memory, must change nothing.
*/
module IdleLoop {
  /** What the detection sees of a fetched instruction, and the flags and condition that it does not
      look at. `psrOrCoprocessor`: one of the ARM instructions from MSR to MRC. */
  datatype FetchedInstr = FetchedInstr(
    srcRegs: set<nat>,
    dstRegs: set<nat>,
    writesMem: bool,
    psrOrCoprocessor: bool,
    conditional: bool,
    readFlags: set<nat>,
    writeFlags: set<nat>,
    maybeFlags: set<nat>)
  {
    predicate Branches() { 15 in dstRegs }

    ghost predicate WellFormed() {
      && (forall r <- srcRegs + dstRegs :: r < 16)
      && (forall f <- readFlags + writeFlags + maybeFlags :: f < 4)
    }
  }

  // ----- the detection -----

  /** The registers below `n` that some instruction before `n` writes. */
  ghost predicate WrittenBefore(instrs: seq<FetchedInstr>, n: nat, r: nat)
    requires n <= |instrs|
  {
    exists j :: 0 <= j < n && r in instrs[j].dstRegs
  }

  /** Instruction `i` reads what the previous iteration left in `r`. */
  ghost predicate CarriedInto(instrs: seq<FetchedInstr>, i: nat, r: nat)
    requires i < |instrs|
  {
    r != 15 && r in instrs[i].srcRegs && !WrittenBefore(instrs, i, r)
  }

  /** Instruction `i` is one that an idle loop may contain. */
  predicate Harmless(thumb: bool, instrs: seq<FetchedInstr>, i: nat)
    requires i < |instrs|
  {
    !instrs[i].writesMem && (thumb || !instrs[i].psrOrCoprocessor) && (i < |instrs| - 1 ==> !instrs[i].Branches())
  }

  /** No iteration depends on another: no register that carries a value into the iteration is
      written in or after the instruction that reads it. */
  ghost predicate Independent(instrs: seq<FetchedInstr>, n: nat)
    requires n <= |instrs|
  {
    forall i, j, r :: 0 <= i <= j < n && CarriedInto(instrs, i, r) ==> r !in instrs[j].dstRegs
  }

  method IsIdleLoop(thumb: bool, instrs: seq<FetchedInstr>) returns (idle: bool)
    ensures idle <==> (forall i :: 0 <= i < |instrs| ==> Harmless(thumb, instrs, i)) && Independent(instrs, |instrs|)
  {
    var regsWrittenTo: set<nat> := {};
    var regsDisallowedToWrite: set<nat> := {};
    for i := 0 to |instrs|
      invariant forall r :: r in regsWrittenTo <==> r != 15 && WrittenBefore(instrs, i, r)
      invariant forall r :: r in regsDisallowedToWrite <==> exists k :: 0 <= k < i && CarriedInto(instrs, k, r)
      invariant forall k :: 0 <= k < i ==> Harmless(thumb, instrs, k)
      invariant Independent(instrs, i)
    {
      if instrs[i].writesMem {
        assert !Harmless(thumb, instrs, i);
        return false;
      }
      if !thumb && instrs[i].psrOrCoprocessor {
        assert !Harmless(thumb, instrs, i);
        return false;
      }
      if i < |instrs| - 1 && instrs[i].Branches() {
        assert !Harmless(thumb, instrs, i);
        return false;
      }

      var srcRegs := instrs[i].srcRegs - {15};
      var dstRegs := instrs[i].dstRegs - {15};
      ghost var before := regsDisallowedToWrite;
      regsDisallowedToWrite := regsDisallowedToWrite + (srcRegs - regsWrittenTo);
      forall r ensures r in regsDisallowedToWrite <==> exists k :: 0 <= k < i + 1 && CarriedInto(instrs, k, r) {
        if r in srcRegs - regsWrittenTo { assert CarriedInto(instrs, i, r); }
      }
      if dstRegs * regsDisallowedToWrite != {} {
        var r :| r in dstRegs * regsDisallowedToWrite;
        return false;
      }
      forall k, j, r | 0 <= k <= j < i + 1 && CarriedInto(instrs, k, r) ensures r !in instrs[j].dstRegs {
        assert r in regsDisallowedToWrite;
        assert r !in dstRegs * regsDisallowedToWrite;
      }
      regsWrittenTo := regsWrittenTo + dstRegs;
      forall r ensures r in regsWrittenTo <==> r != 15 && WrittenBefore(instrs, i + 1, r) {
        if r in dstRegs { assert r in instrs[i].dstRegs; }
      }
    }
    return true;
  }

  // ----- what an iteration computes -----

  /** Registers 0 to 14 at their number, flags from 16 on; index 15 is not used. */
  type Locations = s: seq<int> | |s| == 20 witness seq(20, _ => 0)

  function Reads(instr: FetchedInstr): set<nat> {
    (set r | r in instr.srcRegs && r < 15) + (set f | f in instr.readFlags && f < 4 :: 16 + f)
  }

  /** A conditional instruction writes nothing when its condition fails. */
  function AlwaysWrites(instr: FetchedInstr): set<nat> {
    if instr.conditional then {}
    else (set r | r in instr.dstRegs && r < 15) + (set f | f in instr.writeFlags && f < 4 :: 16 + f)
  }

  function MayWrite(instr: FetchedInstr): set<nat> {
    (set r | r in instr.dstRegs && r < 15) + (set f | f in instr.writeFlags + instr.maybeFlags && f < 4 :: 16 + f)
  }

  /** What the instruction writes, given the values of the locations it reads; memory does not change. */
  type Behaviour = map<nat, int> -> map<nat, int>

  ghost predicate Obeys(instr: FetchedInstr, behaviour: Behaviour) {
    forall inputs :: AlwaysWrites(instr) <= behaviour(inputs).Keys <= MayWrite(instr)
  }

  function Writes(instr: FetchedInstr, behaviour: Behaviour, s: Locations): map<nat, int> {
    behaviour(map l | l in Reads(instr) && l < 20 :: s[l])
  }

  function Step(instr: FetchedInstr, behaviour: Behaviour, s: Locations): Locations {
    var writes := Writes(instr, behaviour, s);
    seq(20, l requires 0 <= l < 20 => if l in writes then writes[l] else s[l])
  }

  function Run(body: seq<FetchedInstr>, code: seq<Behaviour>, n: nat, s: Locations): Locations
    requires n <= |body| == |code|
  {
    if n == 0 then s else Step(body[n - 1], code[n - 1], Run(body, code, n - 1, s))
  }

  /** The locations that the first `n` instructions do write when they start from `s`. */
  ghost function Written(body: seq<FetchedInstr>, code: seq<Behaviour>, n: nat, s: Locations): set<nat>
    requires n <= |body| == |code|
  {
    if n == 0 then {}
    else Written(body, code, n - 1, s) + Writes(body[n - 1], code[n - 1], Run(body, code, n - 1, s)).Keys
  }

  /** Every location that instruction `i` reads is certainly written earlier in the iteration, or not
      written from there on. */
  ghost predicate SelfContained(body: seq<FetchedInstr>) {
    forall i, l :: 0 <= i < |body| && l in Reads(body[i]) ==>
      AlwaysWrittenBefore(body, i, l) || forall j :: i <= j < |body| ==> l !in MayWrite(body[j])
  }

  ghost predicate AlwaysWrittenBefore(body: seq<FetchedInstr>, n: nat, l: nat)
    requires n <= |body|
  {
    exists j :: 0 <= j < n && l in AlwaysWrites(body[j])
  }

  ghost predicate AllObey(body: seq<FetchedInstr>, code: seq<Behaviour>) {
    |body| == |code| && forall i :: 0 <= i < |body| ==> Obeys(body[i], code[i])
  }

  lemma WritesBounds(body: seq<FetchedInstr>, code: seq<Behaviour>, i: nat, s: Locations)
    requires AllObey(body, code) && i < |body|
    ensures AlwaysWrites(body[i]) <= Writes(body[i], code[i], s).Keys <= MayWrite(body[i])
  {
    hide AlwaysWrites, MayWrite, Reads;
    assert Obeys(body[i], code[i]);
  }

  lemma SameInputs(instr: FetchedInstr, behaviour: Behaviour, s: Locations, t: Locations)
    requires forall l :: 0 <= l < 20 && l in Reads(instr) ==> s[l] == t[l]
    ensures Writes(instr, behaviour, s) == Writes(instr, behaviour, t)
  {
    hide Reads;
    assert (map l | l in Reads(instr) && l < 20 :: s[l]) == (map l | l in Reads(instr) && l < 20 :: t[l]);
  }

  lemma {:induction false} WrittenCovers(body: seq<FetchedInstr>, code: seq<Behaviour>, n: nat, s: Locations, l: nat)
    requires AllObey(body, code) && n <= |body| && AlwaysWrittenBefore(body, n, l)
    ensures l in Written(body, code, n, s)
  {
    hide Writes, MayWrite, AlwaysWrites, Obeys;
    var j :| 0 <= j < n && l in AlwaysWrites(body[j]);
    if j == n - 1 {
      WritesBounds(body, code, j, Run(body, code, n - 1, s));
    } else {
      WrittenCovers(body, code, n - 1, s, l);
    }
  }

  /** A location that was not written before `n` and may not be written from `i` on keeps its value. */
  lemma {:induction false} Untouched(body: seq<FetchedInstr>, code: seq<Behaviour>, i: nat, n: nat, s: Locations, l: nat)
    requires AllObey(body, code) && i <= n <= |body| && l < 20 && l !in Written(body, code, i, s)
    requires forall j :: i <= j < n ==> l !in MayWrite(body[j])
    ensures l !in Written(body, code, n, s) && Run(body, code, n, s)[l] == s[l]
  {
    hide Writes, MayWrite, AlwaysWrites, Obeys;
    if i < n {
      Untouched(body, code, i, n - 1, s, l);
      WritesBounds(body, code, n - 1, Run(body, code, n - 1, s));
    } else if n > 0 {
      Untouched(body, code, n - 1, n - 1, s, l);
    }
  }

  // ----- what one iteration leaves for the next -----

  /** Instruction `n` may read from `l` what an instruction from `n` on wrote there in the iteration before. */
  ghost predicate CarriedOver(body: seq<FetchedInstr>, n: nat, l: nat)
    requires n < |body|
  {
    l in Reads(body[n]) && !AlwaysWrittenBefore(body, n, l) && exists j :: n <= j < |body| && l in MayWrite(body[j])
  }

  /** Instruction `n` may read something else in the second iteration than in the first. */
  ghost predicate Unsteady(body: seq<FetchedInstr>, n: nat)
    requires n < |body|
    decreases n, 1
  {
    exists l :: l in Reads(body[n]) && (l in Stirred(body, n) || CarriedOver(body, n, l))
  }

  /** The locations that the first `n` instructions may leave different in the second iteration: those that
      an unsteady instruction may write, until a steady one certainly writes them. */
  ghost function Stirred(body: seq<FetchedInstr>, n: nat): set<nat>
    requires n <= |body|
    decreases n, 0
  {
    if n == 0 then {}
    else if Unsteady(body, n - 1) then Stirred(body, n - 1) + MayWrite(body[n - 1])
    else Stirred(body, n - 1) - AlwaysWrites(body[n - 1])
  }

  /** What the states of the two iterations have in common before instruction `n`. */
  ghost predicate InStep(body: seq<FetchedInstr>, code: seq<Behaviour>, n: nat, s: Locations, t: Locations)
    requires n <= |body| == |code|
  {
    forall l :: 0 <= l < 20 && l !in Stirred(body, n) ==>
      (l in Written(body, code, n, t) <==> l in Written(body, code, n, s)) &&
      Run(body, code, n, t)[l] == (if l in Written(body, code, n, s) then Run(body, code, n, s)[l] else t[l])
  }

  /** What a steady instruction reads is the same in both iterations. */
  lemma SameReads(body: seq<FetchedInstr>, code: seq<Behaviour>, n: nat, s: Locations, l: nat)
    requires AllObey(body, code) && n < |body| && !Unsteady(body, n) && l in Reads(body[n]) && l < 20
    requires InStep(body, code, n, s, Run(body, code, |body|, s))
    ensures Run(body, code, n, s)[l] == Run(body, code, n, Run(body, code, |body|, s))[l]
  {
    hide Writes, MayWrite, AlwaysWrites, Obeys, Reads, Step, Run, Written, Stirred;
    assert l !in Stirred(body, n) && !CarriedOver(body, n, l);
    if l !in Written(body, code, n, s) {
      if AlwaysWrittenBefore(body, n, l) {
        WrittenCovers(body, code, n, s, l);
      }
      Untouched(body, code, n, n, s, l);
      Untouched(body, code, n, |body|, s, l);
    }
  }

  /** One instruction, with the same writes in both iterations or with none outside `stirred`. */
  lemma StepInStep(body: seq<FetchedInstr>, code: seq<Behaviour>, n: nat, s: Locations, t: Locations)
    requires AllObey(body, code) && n < |body| && InStep(body, code, n, s, t)
    requires !Unsteady(body, n) ==>
               Writes(body[n], code[n], Run(body, code, n, s)) == Writes(body[n], code[n], Run(body, code, n, t))
    ensures InStep(body, code, n + 1, s, t)
  {
    hide MayWrite, AlwaysWrites, Obeys, Reads, Writes, Unsteady;
    var first, second := Run(body, code, n, s), Run(body, code, n, t);
    WritesBounds(body, code, n, first);
    WritesBounds(body, code, n, second);
    assert Stirred(body, n + 1) ==
           if Unsteady(body, n) then Stirred(body, n) + MayWrite(body[n]) else Stirred(body, n) - AlwaysWrites(body[n]);
    assert Written(body, code, n + 1, s) == Written(body, code, n, s) + Writes(body[n], code[n], first).Keys;
    assert Written(body, code, n + 1, t) == Written(body, code, n, t) + Writes(body[n], code[n], second).Keys;
    assert Run(body, code, n + 1, s) == Step(body[n], code[n], first);
    assert Run(body, code, n + 1, t) == Step(body[n], code[n], second);
  }

  /** Outside the stirred locations, the second iteration writes what the first one wrote. */
  lemma {:induction false} SecondIteration(body: seq<FetchedInstr>, code: seq<Behaviour>, n: nat, s: Locations)
    requires AllObey(body, code) && n <= |body|
    ensures InStep(body, code, n, s, Run(body, code, |body|, s))
  {
    hide Writes, MayWrite, AlwaysWrites, Obeys, Reads, Unsteady, Step;
    var t := Run(body, code, |body|, s);
    if n == 0 {
      assert Written(body, code, 0, s) == {} && Written(body, code, 0, t) == {};
    } else {
      SecondIteration(body, code, n - 1, s);
      if !Unsteady(body, n - 1) {
        var first, second := Run(body, code, n - 1, s), Run(body, code, n - 1, t);
        forall l | 0 <= l < 20 && l in Reads(body[n - 1]) ensures first[l] == second[l] {
          SameReads(body, code, n - 1, s, l);
        }
        SameInputs(body[n - 1], code[n - 1], first, second);
      }
      StepInStep(body, code, n - 1, s, t);
    }
  }

  /** In a self-contained body nothing is stirred. */
  lemma {:induction false} SelfContainedIsSteady(body: seq<FetchedInstr>, n: nat)
    requires SelfContained(body) && n <= |body|
    ensures Stirred(body, n) == {}
  {
    hide AlwaysWrites, MayWrite, Reads;
    if n > 0 {
      SelfContainedIsSteady(body, n - 1);
      assert !Unsteady(body, n - 1);
    }
  }

  /** Running a self-contained body again changes nothing. */
  lemma SelfContainedIsIdle(body: seq<FetchedInstr>, code: seq<Behaviour>, s: Locations)
    requires AllObey(body, code) && SelfContained(body)
    ensures Run(body, code, |body|, Run(body, code, |body|, s)) == Run(body, code, |body|, s)
  {
    SelfContainedIsSteady(body, |body|);
    SecondIteration(body, code, |body|, s);
  }

  /** A flag that is read has been set earlier in the iteration, or is not set from there on. */
  ghost predicate FlagsSettled(body: seq<FetchedInstr>) {
    forall i, f :: 0 <= i < |body| && f in body[i].readFlags ==>
      (exists j :: 0 <= j < i && f in body[j].writeFlags) ||
      forall j :: i <= j < |body| ==> f !in body[j].writeFlags + body[j].maybeFlags
  }

  /** What the detection accepts is self-contained, provided no instruction but the final branch is
      conditional and the flags that are read are settled. */
  lemma AcceptedIsSelfContained(body: seq<FetchedInstr>)
    requires Independent(body, |body|)
    requires forall i :: 0 <= i < |body| ==> body[i].WellFormed() && (body[i].conditional ==> i == |body| - 1)
    requires FlagsSettled(body)
    ensures SelfContained(body)
  {
    forall i, l | 0 <= i < |body| && l in Reads(body[i]) && !AlwaysWrittenBefore(body, i, l)
      ensures forall j :: i <= j < |body| ==> l !in MayWrite(body[j])
    {
      assert forall j :: 0 <= j < i ==> l !in AlwaysWrites(body[j]);
      if l < 15 {
        assert CarriedInto(body, i, l);
      } else {
        assert l - 16 in body[i].readFlags;
      }
    }
  }

  /** A loop that the detection accepts is idle: a second iteration changes no register and no flag. */
  lemma AcceptedIsIdle(body: seq<FetchedInstr>, code: seq<Behaviour>, s: Locations)
    requires AllObey(body, code) && Independent(body, |body|)
    requires forall i :: 0 <= i < |body| ==> body[i].WellFormed() && (body[i].conditional ==> i == |body| - 1)
    requires FlagsSettled(body)
    ensures Run(body, code, |body|, Run(body, code, |body|, s)) == Run(body, code, |body|, s)
  {
    AcceptedIsSelfContained(body);
    SelfContainedIsIdle(body, code, s);
  }

  // ----- with memory and jumps -----

  /** What one execution of an instruction does: the locations it writes, what becomes of the rest of the world
      (memory, modes, coprocessors), and whether it jumps. */
  datatype Effect<W> = Effect(writes: map<nat, int>, world: W, jumps: bool)

  type Action<!W> = (map<nat, int>, W) -> Effect<W>

  /** An instruction changes the world only if it writes memory or is one of those from MSR to MRC, which are ARM
      instructions, and jumps only if register 15 is among those it writes. */
  ghost predicate Performs<W(!new)>(thumb: bool, instr: FetchedInstr, act: Action<W>) {
    forall inputs, w ::
      var e := act(inputs, w);
      && AlwaysWrites(instr) <= e.writes.Keys <= MayWrite(instr)
      && (e.world != w ==> instr.writesMem || (!thumb && instr.psrOrCoprocessor))
      && (e.jumps ==> 15 in instr.dstRegs)
  }

  datatype Cpu<W> = Cpu(locations: Locations, world: W)

  /** Runs the body from instruction `i` on, up to a jump or its end; how many instructions have been reached. */
  function Iterate<W>(body: seq<FetchedInstr>, acts: seq<Action<W>>, i: nat, cpu: Cpu<W>): (end: (Cpu<W>, nat))
    requires i <= |body| == |acts|
    decreases |body| - i
  {
    if i == |body| then (cpu, i)
    else
      var e := acts[i](map l | l in Reads(body[i]) && l < 20 :: cpu.locations[l], cpu.world);
      var next := Cpu(seq(20, l requires 0 <= l < 20 => if l in e.writes then e.writes[l] else cpu.locations[l]), e.world);
      if e.jumps then (next, i + 1) else Iterate(body, acts, i + 1, next)
  }

  /** What an instruction writes while the world is `w`. */
  ghost function BehaviourIn<W>(act: Action<W>, w: W): Behaviour {
    (inputs: map<nat, int>) => act(inputs, w).writes
  }

  ghost function CodeIn<W>(acts: seq<Action<W>>, w: W): (code: seq<Behaviour>)
    ensures |code| == |acts| && forall i :: 0 <= i < |acts| ==> code[i] == BehaviourIn(acts[i], w)
  {
    seq(|acts|, i requires 0 <= i < |acts| => BehaviourIn(acts[i], w))
  }

  /** An instruction that the detection accepts leaves the world and, but for the last one, goes on with the next. */
  lemma HarmlessStep<W(!new)>(thumb: bool, body: seq<FetchedInstr>, acts: seq<Action<W>>, i: nat, s: Locations, w: W)
    requires i < |body| == |acts| && Harmless(thumb, body, i) && Performs(thumb, body[i], acts[i])
    ensures Iterate(body, acts, i, Cpu(s, w)) == Iterate(body, acts, i + 1, Cpu(Step(body[i], BehaviourIn(acts[i], w), s), w))
  {
    hide AlwaysWrites, MayWrite, Reads;
    var inputs := map l | l in Reads(body[i]) && l < 20 :: s[l];
    var e := acts[i](inputs, w);
    assert e.world == w;
    assert Writes(body[i], BehaviourIn(acts[i], w), s) == e.writes;
    var next := Cpu(Step(body[i], BehaviourIn(acts[i], w), s), w);
    assert next == Cpu(seq(20, l requires 0 <= l < 20 => if l in e.writes then e.writes[l] else s[l]), e.world);
    assert Iterate(body, acts, i, Cpu(s, w)) == if e.jumps then (next, i + 1) else Iterate(body, acts, i + 1, next);
    if e.jumps {
      assert i + 1 == |body|;
    }
  }

  /** A body that the detection accepts runs to its end and leaves the world as it is. */
  lemma {:induction false} AcceptedRunsThrough<W(!new)>(
    thumb: bool, body: seq<FetchedInstr>, acts: seq<Action<W>>, i: nat, s: Locations, w: W)
    requires i <= |body| == |acts| && forall k :: 0 <= k < |body| ==> Harmless(thumb, body, k) && Performs(thumb, body[k], acts[k])
    ensures Iterate(body, acts, i, Cpu(Run(body, CodeIn(acts, w), i, s), w)) ==
            (Cpu(Run(body, CodeIn(acts, w), |body|, s), w), |body|)
    decreases |body| - i
  {
    hide Step, Harmless, Performs, Iterate;
    if i < |body| {
      assert Harmless(thumb, body, i) && Performs(thumb, body[i], acts[i]);
      HarmlessStep(thumb, body, acts, i, Run(body, CodeIn(acts, w), i, s), w);
      AcceptedRunsThrough(thumb, body, acts, i + 1, s, w);
    } else {
      EndOfBody(body, acts, Cpu(Run(body, CodeIn(acts, w), i, s), w));
    }
  }

  lemma EndOfBody<W>(body: seq<FetchedInstr>, acts: seq<Action<W>>, cpu: Cpu<W>)
    requires |body| == |acts|
    ensures Iterate(body, acts, |body|, cpu) == (cpu, |body|)
  {
  }

  /** So a second iteration of an accepted loop changes nothing at all: no register, no flag, no memory. */
  lemma AcceptedLoopIsIdle<W(!new)>(thumb: bool, body: seq<FetchedInstr>, acts: seq<Action<W>>, cpu: Cpu<W>)
    requires |body| == |acts| && forall k :: 0 <= k < |body| ==> Harmless(thumb, body, k) && Performs(thumb, body[k], acts[k])
    requires Independent(body, |body|) && FlagsSettled(body)
    requires forall i :: 0 <= i < |body| ==> body[i].WellFormed() && (body[i].conditional ==> i == |body| - 1)
    ensures var once := Iterate(body, acts, 0, cpu).0;
            Iterate(body, acts, 0, once) == (once, |body|) && once.world == cpu.world
  {
    hide AlwaysWrites, MayWrite, Iterate, Step, Reads, Harmless, FlagsSettled, Independent;
    var code := CodeIn(acts, cpu.world);
    forall i | 0 <= i < |body| ensures Obeys(body[i], code[i]) {
      assert Performs(thumb, body[i], acts[i]);
      forall inputs ensures AlwaysWrites(body[i]) <= code[i](inputs).Keys <= MayWrite(body[i]) {
        assert code[i](inputs) == acts[i](inputs, cpu.world).writes;
      }
    }
    AcceptedRunsThrough(thumb, body, acts, 0, cpu.locations, cpu.world);
    AcceptedRunsThrough(thumb, body, acts, 0, Run(body, code, |body|, cpu.locations), cpu.world);
    AcceptedIsIdle(body, code, cpu.locations);
  }

  // ----- the exact condition -----

  /** Whatever its instructions do with what they read, a second iteration changes nothing. */
  ghost predicate Idle(body: seq<FetchedInstr>) {
    forall code, s: Locations :: AllObey(body, code) ==> RunsTwice(body, code, s)
  }

  ghost predicate RunsTwice(body: seq<FetchedInstr>, code: seq<Behaviour>, s: Locations)
    requires |body| == |code|
  {
    Run(body, code, |body|, Run(body, code, |body|, s)) == Run(body, code, |body|, s)
  }

  /** A way for a value to get from one iteration to the end of the next: the instructions it goes through, with
      what each reads of it and what it writes. The first of them, `start`, finds it in `root`. */
  datatype Trail = Trail(hops: map<nat, Hop>, start: nat, root: nat)
  datatype Hop = Hop(read: nat, write: nat)

  ghost predicate Leads(body: seq<FetchedInstr>, n: nat, trail: Trail)
    requires n <= |body|
  {
    && trail.start in trail.hops && trail.start < n
    && trail.hops[trail.start].read == trail.root && CarriedOver(body, trail.start, trail.root)
    && forall m <- trail.hops ::
      trail.start <= m < n && trail.hops[m].read in Reads(body[m]) && trail.hops[m].write in MayWrite(body[m])
  }

  ghost predicate WrittenTo(trail: Trail, l: nat) {
    exists m :: m in trail.hops && trail.hops[m].write == l
  }

  /** What the unsteady instruction `n` reads: something stirred, if it can. */
  ghost function Source(body: seq<FetchedInstr>, n: nat): (l: nat)
    requires n < |body| && Unsteady(body, n)
    ensures l in Reads(body[n]) && (l in Stirred(body, n) || CarriedOver(body, n, l))
  {
    var l :| l in Reads(body[n]) && (l in Stirred(body, n) || CarriedOver(body, n, l));
    l
  }

  /** How the stirred location `l` came to be so. */
  ghost function TrailTo(body: seq<FetchedInstr>, n: nat, l: nat): (trail: Trail)
    requires n <= |body| && l in Stirred(body, n)
    ensures Leads(body, n, trail) && WrittenTo(trail, l)
    decreases n
  {
    if Unsteady(body, n - 1) && l in MayWrite(body[n - 1]) then
      var r := Source(body, n - 1);
      if r in Stirred(body, n - 1) then
        var before := TrailTo(body, n - 1, r);
        before.(hops := before.hops[n - 1 := Hop(r, l)])
      else Trail(map[n - 1 := Hop(r, l)], n - 1, r)
    else TrailTo(body, n - 1, l)
  }

  /** Code that carries a value along the trail. An instruction on the trail adds one to what it reads and all
      others give one; they write what they must, the trail, and `root` at `giver`. */
  datatype Plan = Plan(trail: Trail, giver: int)

  ghost predicate Carries(body: seq<FetchedInstr>, plan: Plan) {
    && Leads(body, |body|, plan.trail)
    && if WrittenTo(plan.trail, plan.trail.root) then plan.giver == -1
       else plan.trail.start <= plan.giver < |body| && plan.trail.root in MayWrite(body[plan.giver])
  }

  ghost function Targets(instr: FetchedInstr, plan: Plan, n: nat): set<nat> {
    AlwaysWrites(instr)
    + (if n in plan.trail.hops then {plan.trail.hops[n].write} else {})
    + (if n == plan.giver then {plan.trail.root} else {})
  }

  ghost function Carrier(instr: FetchedInstr, plan: Plan, n: nat): Behaviour {
    (inputs: map<nat, int>) =>
      map k | k in Targets(instr, plan, n) ::
        if n in plan.trail.hops && plan.trail.hops[n].read in inputs then 1 + inputs[plan.trail.hops[n].read] else 1
  }

  ghost function CarrierCode(body: seq<FetchedInstr>, plan: Plan): (code: seq<Behaviour>)
    ensures |code| == |body| && forall i :: 0 <= i < |body| ==> code[i] == Carrier(body[i], plan, i)
  {
    seq(|body|, i requires 0 <= i < |body| => Carrier(body[i], plan, i))
  }

  lemma Bounds(instr: FetchedInstr, l: nat)
    ensures l in Reads(instr) ==> l < 20
    ensures l in MayWrite(instr) ==> l < 20
    ensures l in AlwaysWrites(instr) ==> l in MayWrite(instr)
  {
  }

  lemma CarrierObeys(body: seq<FetchedInstr>, plan: Plan)
    requires Carries(body, plan)
    ensures AllObey(body, CarrierCode(body, plan))
  {
    hide Reads, MayWrite, AlwaysWrites;
    forall i | 0 <= i < |body| ensures Obeys(body[i], Carrier(body[i], plan, i)) {
      forall l | l in Targets(body[i], plan, i) ensures l in MayWrite(body[i]) {
        Bounds(body[i], l);
      }
    }
  }

  /** What one instruction of the carrier does. */
  lemma CarrierStep(body: seq<FetchedInstr>, plan: Plan, n: nat, s: Locations, l: nat)
    requires Carries(body, plan) && n < |body| && l < 20
    ensures n in plan.trail.hops ==> plan.trail.hops[n].read < 20
    ensures Run(body, CarrierCode(body, plan), n + 1, s)[l] ==
            var before := Run(body, CarrierCode(body, plan), n, s);
            if l !in Targets(body[n], plan, n) then before[l]
            else if n in plan.trail.hops then 1 + before[plan.trail.hops[n].read]
            else 1
  {
    hide Reads, MayWrite, AlwaysWrites, Targets;
    if n in plan.trail.hops {
      Bounds(body[n], plan.trail.hops[n].read);
    }
    var before := Run(body, CarrierCode(body, plan), n, s);
    assert Run(body, CarrierCode(body, plan), n + 1, s) == Step(body[n], Carrier(body[n], plan, n), before);
  }

  /** From a state without negative values, what the carrier has written is positive. */
  lemma {:induction false} Positive(body: seq<FetchedInstr>, plan: Plan, n: nat, s: Locations, l: nat)
    requires Carries(body, plan) && n <= |body| && l < 20
    requires forall k :: 0 <= k < 20 ==> s[k] >= 0
    ensures Run(body, CarrierCode(body, plan), n, s)[l] >= 0
    ensures (exists m :: 0 <= m < n && l in Targets(body[m], plan, m)) ==> Run(body, CarrierCode(body, plan), n, s)[l] > 0
  {
    hide Reads, MayWrite, AlwaysWrites, Targets, Step;
    if n > 0 {
      Positive(body, plan, n - 1, s, l);
      CarrierStep(body, plan, n - 1, s, l);
      if n - 1 in plan.trail.hops {
        Positive(body, plan, n - 1, s, plan.trail.hops[n - 1].read);
      }
    }
  }

  /** Up to the start of the trail nothing writes its root. */
  lemma {:induction false} RootStays(body: seq<FetchedInstr>, plan: Plan, n: nat, s: Locations)
    requires Carries(body, plan) && n <= plan.trail.start && plan.trail.root < 20
    ensures Run(body, CarrierCode(body, plan), n, s)[plan.trail.root] == s[plan.trail.root]
  {
    hide Reads, MayWrite, AlwaysWrites, Step;
    if n > 0 {
      RootStays(body, plan, n - 1, s);
      CarrierStep(body, plan, n - 1, s, plan.trail.root);
      assert !AlwaysWrittenBefore(body, plan.trail.start, plan.trail.root);
    }
  }

  /** The trail to `l` is what the plan's trail has before instruction `n`. */
  ghost predicate Follows(body: seq<FetchedInstr>, plan: Plan, n: nat, l: nat)
    requires n <= |body| && l in Stirred(body, n)
  {
    var trail := TrailTo(body, n, l);
    && trail.start == plan.trail.start && trail.root == plan.trail.root
    && (forall m :: m in trail.hops <==> m in plan.trail.hops && m < n)
    && (forall m <- trail.hops :: trail.hops[m] == plan.trail.hops[m])
  }

  /** Where the trail does not go through the last instruction, that instruction leaves `l` alone. */
  lemma PassedBy(body: seq<FetchedInstr>, plan: Plan, n: nat, l: nat)
    requires Carries(body, plan) && n < |body| && l in Stirred(body, n + 1)
    requires Follows(body, plan, n + 1, l) && !(Unsteady(body, n) && l in MayWrite(body[n]))
    ensures l in Stirred(body, n) && Follows(body, plan, n, l) && l !in Targets(body[n], plan, n)
  {
    hide Reads, MayWrite, AlwaysWrites, Unsteady;
    Bounds(body[n], l);
    assert TrailTo(body, n + 1, l) == TrailTo(body, n, l);
  }

  /** Where it does, that instruction carries on what it found in the source. */
  lemma PassedOn(body: seq<FetchedInstr>, plan: Plan, n: nat, l: nat)
    requires Carries(body, plan) && n < |body| && l in Stirred(body, n + 1)
    requires Follows(body, plan, n + 1, l) && Unsteady(body, n) && l in MayWrite(body[n])
    ensures n in plan.trail.hops && plan.trail.hops[n] == Hop(Source(body, n), l) && l in Targets(body[n], plan, n)
    ensures Source(body, n) in Stirred(body, n) ==> Follows(body, plan, n, Source(body, n))
    ensures Source(body, n) !in Stirred(body, n) ==> n == plan.trail.start && Source(body, n) == plan.trail.root
  {
    hide Reads, MayWrite, AlwaysWrites, Unsteady, CarriedOver, Stirred, Source;
    var trail := TrailTo(body, n + 1, l);
    assert n in trail.hops && trail.hops[n] == Hop(Source(body, n), l);
  }

  /** A difference in the root becomes one in the stirred location at the end of the trail. */
  lemma {:induction false} Carried(body: seq<FetchedInstr>, plan: Plan, n: nat, l: nat, s: Locations, t: Locations)
    requires Carries(body, plan) && n <= |body| && l in Stirred(body, n) && l < 20 && plan.trail.root < 20
    requires Follows(body, plan, n, l)
    requires Run(body, CarrierCode(body, plan), plan.trail.start, s)[plan.trail.root]
           < Run(body, CarrierCode(body, plan), plan.trail.start, t)[plan.trail.root]
    ensures Run(body, CarrierCode(body, plan), n, s)[l] < Run(body, CarrierCode(body, plan), n, t)[l]
  {
    hide Reads, MayWrite, AlwaysWrites, Step, Run, Unsteady, CarriedOver, TrailTo, Source, Follows, Leads, Targets;
    assert n > 0 by { assert Stirred(body, 0) == {}; }
    CarrierStep(body, plan, n - 1, s, l);
    CarrierStep(body, plan, n - 1, t, l);
    if Unsteady(body, n - 1) && l in MayWrite(body[n - 1]) {
      var r := Source(body, n - 1);
      PassedOn(body, plan, n - 1, l);
      if r in Stirred(body, n - 1) {
        Carried(body, plan, n - 1, r, s, t);
      }
    } else {
      PassedBy(body, plan, n - 1, l);
      Carried(body, plan, n - 1, l, s, t);
    }
  }

  ghost function PlanFor(body: seq<FetchedInstr>, l: nat): (plan: Plan)
    requires l in Stirred(body, |body|)
    ensures Carries(body, plan) && plan.trail == TrailTo(body, |body|, l)
  {
    var trail := TrailTo(body, |body|, l);
    if WrittenTo(trail, trail.root) then Plan(trail, -1)
    else
      var j :| trail.start <= j < |body| && trail.root in MayWrite(body[j]);
      Plan(trail, j)
  }

  /** A body that stirs a location is not idle: the carrier starts from zeros and leaves more there the second time. */
  lemma StirredIsNotIdle(body: seq<FetchedInstr>, l: nat)
    requires l in Stirred(body, |body|)
    ensures !Idle(body)
  {
    hide Reads, MayWrite, AlwaysWrites, Step, Run, Stirred, TrailTo, Unsteady;
    var plan := PlanFor(body, l);
    var code, s: Locations := CarrierCode(body, plan), seq(20, _ => 0);
    var t := Run(body, code, |body|, s);
    var root, start := plan.trail.root, plan.trail.start;
    Bounds(body[start], root);
    forall m | m in plan.trail.hops && plan.trail.hops[m].write == l ensures l < 20 {
      Bounds(body[m], l);
    }
    RootStays(body, plan, start, s);
    RootStays(body, plan, start, t);
    RootIsWritten(body, plan);
    Positive(body, plan, |body|, s, root);
    Carried(body, plan, |body|, l, s, t);
    CarrierObeys(body, plan);
    assert !RunsTwice(body, code, s);
  }

  lemma RootIsWritten(body: seq<FetchedInstr>, plan: Plan)
    requires Carries(body, plan)
    ensures exists m :: 0 <= m < |body| && plan.trail.root in Targets(body[m], plan, m)
  {
    hide Reads, MayWrite, AlwaysWrites;
    if WrittenTo(plan.trail, plan.trail.root) {
      var m :| m in plan.trail.hops && plan.trail.hops[m].write == plan.trail.root;
      assert plan.trail.root in Targets(body[m], plan, m);
    } else {
      assert plan.trail.root in Targets(body[plan.giver], plan, plan.giver);
    }
  }

  /** A body is idle, for all that its instructions may do and all states, exactly if it stirs nothing. */
  lemma IdleIff(body: seq<FetchedInstr>)
    ensures Idle(body) <==> Stirred(body, |body|) == {}
  {
    if l :| l in Stirred(body, |body|) {
      StirredIsNotIdle(body, l);
    } else {
      forall code, s: Locations | AllObey(body, code) ensures RunsTwice(body, code, s) {
        SecondIteration(body, code, |body|, s);
      }
    }
  }

  // MOVNE r1,#5; MOV r2,r1; MOV r1,#7; BEQ to the first
  const MOVNE := FetchedInstr({}, {1}, false, false, true, {2}, {}, {})
  const MOV := FetchedInstr({1}, {2}, false, false, false, {}, {}, {})
  const MOV_IMM := FetchedInstr({}, {1}, false, false, false, {}, {}, {})
  const BEQ := FetchedInstr({15}, {15}, false, false, true, {2}, {}, {})
  const EXAMPLE: seq<FetchedInstr> := [MOVNE, MOV, MOV_IMM, BEQ]
  const EXAMPLE_CODE: seq<Behaviour> := [
    inputs => if 18 in inputs && inputs[18] == 0 then map[1 := 5] else map[],
    inputs => map[2 := if 1 in inputs then inputs[1] else 0],
    inputs => map[1 := 7],
    inputs => map[]]

  /** Conditional instructions in front of the branch are what goes wrong: the detection accepts this body, but
      while Z is set, and so the branch taken, the second iteration moves the 7 that the first one left in r1
      into r2. */
  lemma ConditionalBodyIsNotIdle(s: Locations)
    requires s[18] == 1 && s[1] != 7
    ensures AllObey(EXAMPLE, EXAMPLE_CODE) && Independent(EXAMPLE, 4)
    ensures forall i :: 0 <= i < 4 ==> EXAMPLE[i].WellFormed() && Harmless(false, EXAMPLE, i)
    ensures Run(EXAMPLE, EXAMPLE_CODE, 4, s)[18] == 1
    ensures Run(EXAMPLE, EXAMPLE_CODE, 4, Run(EXAMPLE, EXAMPLE_CODE, 4, s)) != Run(EXAMPLE, EXAMPLE_CODE, 4, s)
  {
    ExampleObeys();
    ExampleAccepted();
    OneIteration(s);
    OneIteration(s[2 := s[1]][1 := 7]);
    assert s[2 := s[1]][1 := 7][2] != 7;
  }

  lemma ExampleObeys()
    ensures AllObey(EXAMPLE, EXAMPLE_CODE)
  {
    assert Obeys(MOVNE, EXAMPLE_CODE[0]) && Obeys(MOV, EXAMPLE_CODE[1]);
    assert Obeys(MOV_IMM, EXAMPLE_CODE[2]) && Obeys(BEQ, EXAMPLE_CODE[3]);
  }

  lemma ExampleAccepted()
    ensures Independent(EXAMPLE, 4)
    ensures forall i :: 0 <= i < 4 ==> EXAMPLE[i].WellFormed() && Harmless(false, EXAMPLE, i)
  {
    assert 1 in EXAMPLE[0].dstRegs;
  }

  lemma OneIteration(s: Locations)
    requires s[18] == 1
    ensures Run(EXAMPLE, EXAMPLE_CODE, 4, s) == s[2 := s[1]][1 := 7]
  {
    hide Run, Step;
    ExampleSteps(s);
    var a := Run(EXAMPLE, EXAMPLE_CODE, 1, s);
    ExampleStep(0, s);
    assert a == s;
    var b := Run(EXAMPLE, EXAMPLE_CODE, 2, s);
    ExampleStep(1, a);
    assert b == s[2 := s[1]];
    var c := Run(EXAMPLE, EXAMPLE_CODE, 3, s);
    ExampleStep(2, b);
    assert c == s[2 := s[1]][1 := 7];
    ExampleStep(3, c);
    assert Run(EXAMPLE, EXAMPLE_CODE, 4, s) == c;
  }

  lemma ExampleSteps(s: Locations)
    ensures Run(EXAMPLE, EXAMPLE_CODE, 1, s) == Step(EXAMPLE[0], EXAMPLE_CODE[0], s)
    ensures forall n :: 1 <= n < 4 ==>
              Run(EXAMPLE, EXAMPLE_CODE, n + 1, s) == Step(EXAMPLE[n], EXAMPLE_CODE[n], Run(EXAMPLE, EXAMPLE_CODE, n, s))
  {
    hide Step;
    assert Run(EXAMPLE, EXAMPLE_CODE, 0, s) == s;
  }

  lemma ExampleStep(n: nat, s: Locations)
    requires n < 4 && s[18] == 1
    ensures Step(EXAMPLE[n], EXAMPLE_CODE[n], s) == if n == 1 then s[2 := s[1]] else if n == 2 then s[1 := 7] else s
  {
    assert 16 + 2 in Reads(MOVNE) && 1 in Reads(MOV);
  }
}
