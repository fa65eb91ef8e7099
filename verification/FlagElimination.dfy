/**
  Dead-flag elimination of the recompiler (src/ARMJIT.cpp): `FloodFillSetFlags` walks
  backwards from every reader of condition flags and records, per instruction, which of
  the flags it sets are worth computing.
*/
module FlagElimination {
  datatype Flag = N | Z | C | V

  const ALL_FLAGS: set<Flag> := {N, Z, C, V}

  /** The part of a fetched instruction that matters here. `WriteFlags` is kept as its two nibbles:
      the flags that are set always, and those that might be. Where an instruction is left to the
      interpreter, and at a branch that the block follows, all flags must be right. */
  datatype FetchedInstr = FetchedInstr(
    readFlags: set<Flag>,
    writeAlways: set<Flag>,
    writeMaybe: set<Flag>,
    canCompile: bool,
    followedBranch: bool,
    setFlags: set<Flag>)
  {
    /** The test of the code. */
    predicate SecondaryFlagRead() { !canCompile || followedBranch }

    /** The flags that must be right before the instruction. */
    function Reads(): set<Flag> {
      if canCompile && !followedBranch then readFlags else {N, Z, C, V}
    }
  }

  // ----- the reference: which flags are live -----

  /** Flag `f` is live after instruction `j`: one of the instructions before `n`, or with `ends` the
      end of the block at `n`, reads it before it is certainly overwritten. */
  ghost predicate LiveAfter(instrs: seq<FetchedInstr>, n: nat, ends: bool, j: int, f: Flag)
    requires -1 <= j && n <= |instrs|
  {
    exists k :: j < k <= n && ReadAt(instrs, n, ends, k, f) && KeptBetween(instrs, j, k, f)
  }

  ghost predicate ReadAt(instrs: seq<FetchedInstr>, n: nat, ends: bool, k: nat, f: Flag)
    requires k <= n <= |instrs|
  {
    if k == n then ends else f in instrs[k].Reads()
  }

  ghost predicate KeptBetween(instrs: seq<FetchedInstr>, j: int, k: nat, f: Flag)
    requires -1 <= j && k <= |instrs|
  {
    forall m :: j < m < k ==> f !in instrs[m].writeAlways
  }

  /** `SetFlags` names exactly the flags that an instruction sets and that are live after it. */
  ghost predicate SetFlagsExact(instrs: seq<FetchedInstr>, n: nat, ends: bool)
    requires n <= |instrs|
  {
    forall j, f :: 0 <= j < |instrs| ==>
      (f in instrs[j].setFlags <==>
       j < n && (f in instrs[j].writeAlways || f in instrs[j].writeMaybe) && LiveAfter(instrs, n, ends, j, f))
  }

  /** What a flood from `start` is still looking for when it gets past instruction `j`. */
  function Wanted(instrs: seq<FetchedInstr>, start: int, flags: set<Flag>, j: int): set<Flag>
    requires -1 <= j && start < |instrs|
    decreases start - j
  {
    if j > start then {}
    else if j == start then flags
    else Wanted(instrs, start, flags, j + 1) - instrs[j + 1].writeAlways
  }

  lemma {:induction false} WantedIsKept(instrs: seq<FetchedInstr>, start: int, flags: set<Flag>, j: int, f: Flag)
    requires -1 <= j <= start < |instrs|
    ensures f in Wanted(instrs, start, flags, j) <==> f in flags && KeptBetween(instrs, j, start + 1, f)
    decreases start - j
  {
    if j < start { WantedIsKept(instrs, start, flags, j + 1, f); }
  }

  lemma {:induction false} NothingWanted(instrs: seq<FetchedInstr>, start: int, flags: set<Flag>, j: int, k: int)
    requires -1 <= k <= j <= start < |instrs| && Wanted(instrs, start, flags, j) == {}
    ensures Wanted(instrs, start, flags, k) == {}
    decreases j - k
  {
    if k < j { NothingWanted(instrs, start, flags, j, k + 1); }
  }

  /** An instruction after one flood. */
  function Flooded(instrs: seq<FetchedInstr>, start: int, flags: set<Flag>, j: nat): FetchedInstr
    requires start < |instrs| && j < |instrs|
  {
    var instr := instrs[j];
    instr.(setFlags := instr.setFlags + (instr.writeAlways + instr.writeMaybe) * Wanted(instrs, start, flags, j))
  }

  method FloodFillSetFlags(instrs: array<FetchedInstr>, start: int, flags: set<Flag>)
    requires -1 <= start < instrs.Length
    modifies instrs
    ensures forall j :: 0 <= j < instrs.Length ==> instrs[j] == Flooded(old(instrs[..]), start, flags, j)
  {
    hide Wanted, Flooded;
    var flags' := flags;
    ghost var before := instrs[..];
    FloodStarts(before, start, flags);
    for j := start + 1 downto 0
      invariant j > 0 ==> flags' == Wanted(before, start, flags, j - 1)
      invariant forall k :: 0 <= k < j ==> instrs[k] == before[k]
      invariant forall k :: j <= k < instrs.Length ==> instrs[k] == Flooded(before, start, flags, k)
    {
      FloodStep(before, start, flags, j);
      var matched := instrs[j].writeAlways * flags';
      var matchedMaybe := instrs[j].writeMaybe * flags';
      assert flags' - matched == flags' - before[j].writeAlways;
      if matchedMaybe != {} {
        instrs[j] := instrs[j].(setFlags := instrs[j].setFlags + matchedMaybe);
      }
      if matched != {} {
        instrs[j] := instrs[j].(setFlags := instrs[j].setFlags + matched);
        flags' := flags' - matched;
      }
      assert instrs[j].setFlags == before[j].setFlags + matchedMaybe + matched;
      if matched != {} && flags' == {} {
        forall k | 0 <= k < j ensures instrs[k] == Flooded(before, start, flags, k) {
          NotFlooded(before, start, flags, j - 1, k);
        }
        return;
      }
    }
  }

  lemma FloodStarts(instrs: seq<FetchedInstr>, start: int, flags: set<Flag>)
    requires -1 <= start < |instrs|
    ensures Wanted(instrs, start, flags, start) == flags
    ensures forall k :: start < k < |instrs| ==> Flooded(instrs, start, flags, k) == instrs[k]
  {
    forall k | start < k < |instrs| ensures Flooded(instrs, start, flags, k) == instrs[k] {
      assert Flooded(instrs, start, flags, k).setFlags == instrs[k].setFlags;
    }
  }

  lemma FloodStep(instrs: seq<FetchedInstr>, start: int, flags: set<Flag>, j: nat)
    requires j <= start < |instrs|
    ensures var w, i := Wanted(instrs, start, flags, j), instrs[j];
            && Flooded(instrs, start, flags, j) == i.(setFlags := i.setFlags + i.writeMaybe * w + i.writeAlways * w)
            && Wanted(instrs, start, flags, j - 1) == w - i.writeAlways
  {
    var w, i := Wanted(instrs, start, flags, j), instrs[j];
    assert (i.writeAlways + i.writeMaybe) * w == i.writeMaybe * w + i.writeAlways * w;
    assert i.setFlags + (i.writeMaybe * w + i.writeAlways * w) == i.setFlags + i.writeMaybe * w + i.writeAlways * w;
  }

  lemma NotFlooded(instrs: seq<FetchedInstr>, start: int, flags: set<Flag>, j: int, k: nat)
    requires k <= j <= start < |instrs| && Wanted(instrs, start, flags, j) == {}
    ensures Flooded(instrs, start, flags, k) == instrs[k]
  {
    NothingWanted(instrs, start, flags, j, k);
    assert Flooded(instrs, start, flags, k).setFlags == instrs[k].setFlags;
  }

  /** The same instructions, `SetFlags` aside. */
  ghost predicate SameCode(a: seq<FetchedInstr>, b: seq<FetchedInstr>) {
    |a| == |b| && forall j :: 0 <= j < |a| ==> b[j] == a[j].(setFlags := b[j].setFlags)
  }

  lemma LiveIgnoresSetFlags(a: seq<FetchedInstr>, b: seq<FetchedInstr>, n: nat, ends: bool, j: int, f: Flag)
    requires SameCode(a, b) && -1 <= j && n <= |a|
    ensures LiveAfter(a, n, ends, j, f) <==> LiveAfter(b, n, ends, j, f)
  {
    forall k | j < k <= n
      ensures ReadAt(a, n, ends, k, f) && KeptBetween(a, j, k, f) <==> ReadAt(b, n, ends, k, f) && KeptBetween(b, j, k, f)
    {
      assert forall m :: j < m < k ==> (f in a[m].writeAlways <==> f in b[m].writeAlways);
    }
  }

  /** A new reader at position `n`, or with `ends` the end of the block, makes a flag live after `j` if
      it reads it and nothing in between certainly overwrites it. */
  lemma LiveGrows(instrs: seq<FetchedInstr>, n: nat, ends: bool, j: int, f: Flag)
    requires -1 <= j && (if ends then n == |instrs| else n < |instrs|)
    ensures LiveAfter(instrs, if ends then n else n + 1, ends, j, f) <==>
      LiveAfter(instrs, n, false, j, f) || (j < n && KeptBetween(instrs, j, n, f) && (ends || f in instrs[n].Reads()))
    ensures j >= n ==> !LiveAfter(instrs, n, false, j, f)
  {
    var n' := if ends then n else n + 1;
    if LiveAfter(instrs, n', ends, j, f) {
      var k :| j < k <= n' && ReadAt(instrs, n', ends, k, f) && KeptBetween(instrs, j, k, f);
      if k < n {
        assert ReadAt(instrs, n, false, k, f);
      }
    }
    if LiveAfter(instrs, n, false, j, f) {
      var k :| j < k <= n && ReadAt(instrs, n, false, k, f) && KeptBetween(instrs, j, k, f);
      assert ReadAt(instrs, n', ends, k, f);
    }
    if j < n && KeptBetween(instrs, j, n, f) && (ends || f in instrs[n].Reads()) {
      assert ReadAt(instrs, n', ends, n, f);
    }
  }

  lemma FloodedMember(instrs: seq<FetchedInstr>, start: int, flags: set<Flag>, j: nat, f: Flag)
    requires -1 <= start < |instrs| && j < |instrs|
    ensures f in Flooded(instrs, start, flags, j).setFlags <==>
      f in instrs[j].setFlags || ((f in instrs[j].writeAlways || f in instrs[j].writeMaybe)
        && j <= start && f in flags && KeptBetween(instrs, j, start + 1, f))
  {
    hide KeptBetween;
    if j <= start { WantedIsKept(instrs, start, flags, j, f); }
  }

  lemma FloodForNobody(instrs: seq<FetchedInstr>, start: int)
    requires -1 <= start < |instrs|
    ensures forall j: nat :: j < |instrs| ==> Flooded(instrs, start, {}, j) == instrs[j]
  {
    forall j: nat | j < |instrs| ensures Flooded(instrs, start, {}, j) == instrs[j] {
      if j <= start { NothingWanted(instrs, start, {}, start, j); }
      assert Flooded(instrs, start, {}, j).setFlags == instrs[j].setFlags;
    }
  }

  /** Flooding for a reader keeps `SetFlags` exact. */
  lemma FloodKeepsExact(before: seq<FetchedInstr>, after: seq<FetchedInstr>, n: nat, ends: bool)
    requires if ends then n == |before| else n < |before|
    requires SetFlagsExact(before, n, false) && |after| == |before|
    requires SameCode(before, after)
    requires var flags := if ends then ALL_FLAGS else before[n].Reads();
      forall j :: 0 <= j < |before| ==> after[j] == Flooded(before, n - 1, flags, j)
    ensures SetFlagsExact(after, if ends then n else n + 1, ends)
  {
    hide LiveAfter, KeptBetween, Flooded;
    var flags := if ends then ALL_FLAGS else before[n].Reads();
    var n' := if ends then n else n + 1;
    forall j, f | 0 <= j < |after|
      ensures f in after[j].setFlags <==>
        j < n' && (f in after[j].writeAlways || f in after[j].writeMaybe) && LiveAfter(after, n', ends, j, f)
    {
      LiveIgnoresSetFlags(before, after, n', ends, j, f);
      LiveGrows(before, n, ends, j, f);
      FloodedMember(before, n - 1, flags, j, f);
      assert f == N || f == Z || f == C || f == V;
    }
  }

  lemma NothingToSet(instrs: seq<FetchedInstr>)
    requires forall j :: 0 <= j < |instrs| ==> instrs[j].setFlags == {}
    ensures SetFlagsExact(instrs, 0, false)
  {
  }

  /** The floods of one block: one per instruction that reads flags, and one at the end. */
  method EliminateDeadFlags(instrs: array<FetchedInstr>)
    requires forall j :: 0 <= j < instrs.Length ==> instrs[j].setFlags == {}
    modifies instrs
    ensures SameCode(old(instrs[..]), instrs[..])
    ensures SetFlagsExact(instrs[..], instrs.Length, true)
  {
    hide SetFlagsExact, Wanted;
    assert SetFlagsExact(instrs[..], 0, false) by { NothingToSet(instrs[..]); }
    var i := 0;
    while i < instrs.Length
      invariant i <= instrs.Length && SameCode(old(instrs[..]), instrs[..])
      invariant SetFlagsExact(instrs[..], i, false)
    {
      ghost var before := instrs[..];
      i := i + 1;
      if instrs[i - 1].readFlags != {} || instrs[i - 1].SecondaryFlagRead() {
        FloodFillSetFlags(instrs, i - 2, if !instrs[i - 1].SecondaryFlagRead() then instrs[i - 1].readFlags else ALL_FLAGS);
      } else {
        FloodForNobody(before, i - 2);
      }
      FloodKeepsExact(before, instrs[..], i - 1, false);
    }
    ghost var before := instrs[..];
    FloodFillSetFlags(instrs, i - 1, ALL_FLAGS);
    FloodKeepsExact(before, instrs[..], i, true);
  }

  // ----- what a block computes -----

  /** One execution of an instruction: the new state, the flags written, and those of them that are set. */
  datatype Outcome<S> = Outcome(state: S, written: set<Flag>, values: set<Flag>)

  /** What an instruction does with the state and the flags it reads. */
  type Behaviour<!S> = (S, set<Flag>) -> Outcome<S>

  /** The instruction writes the flags that its decoding promises. */
  ghost predicate Obeys<S(!new)>(instr: FetchedInstr, behaviour: Behaviour<S>) {
    forall s, flags :: var o := behaviour(s, flags);
      instr.writeAlways <= o.written <= instr.writeAlways + instr.writeMaybe
  }

  datatype Cpu<S> = Cpu(state: S, flags: set<Flag>)

  /** One instruction. With `elide`, compiled code computes the flags in `SetFlags` only. */
  function Step<S>(instr: FetchedInstr, behaviour: Behaviour<S>, elide: bool, cpu: Cpu<S>): Cpu<S> {
    var o := behaviour(cpu.state, cpu.flags * instr.Reads());
    var computed := if elide && instr.canCompile then o.written * instr.setFlags else o.written;
    Cpu(o.state, cpu.flags - computed + o.values * computed)
  }

  lemma SomeReads(instr: FetchedInstr)
    ensures instr.readFlags <= instr.Reads()
    ensures !instr.canCompile || instr.followedBranch ==> forall f: Flag :: f in instr.Reads()
  {
    forall f: Flag ensures f in ALL_FLAGS {
      match f case N => case Z => case C => case V =>
    }
  }

  /** Direct execution sees the flags it reads, all of them if it is interpreted or a branch that the block follows,
      and changes those it writes. Compiled code differs in that it keeps what is not in `SetFlags`. */
  lemma StepIs<S>(instr: FetchedInstr, behaviour: Behaviour<S>, elide: bool, cpu: Cpu<S>)
    ensures var everything := !instr.canCompile || instr.followedBranch;
      var o := behaviour(cpu.state, if everything then cpu.flags else cpu.flags * instr.readFlags);
      var next := Step(instr, behaviour, elide, cpu);
      && next.state == o.state
      && forall f: Flag :: f in next.flags <==>
           if f in o.written && (!elide || !instr.canCompile || f in instr.setFlags) then f in o.values else f in cpu.flags
  {
    SomeReads(instr);
    assert cpu.flags * instr.Reads()
        == if !instr.canCompile || instr.followedBranch then cpu.flags else cpu.flags * instr.readFlags;
  }

  /** The first `n` instructions of a block. */
  function Run<S>(instrs: seq<FetchedInstr>, code: seq<Behaviour<S>>, n: nat, elide: bool, cpu: Cpu<S>): Cpu<S>
    requires n <= |instrs| == |code|
  {
    if n == 0 then cpu else Step(instrs[n - 1], code[n - 1], elide, Run(instrs, code, n - 1, elide, cpu))
  }

  lemma LiveBefore(instrs: seq<FetchedInstr>, j: nat, f: Flag)
    requires j < |instrs|
    ensures LiveAfter(instrs, |instrs|, true, j - 1, f) <==>
      f in instrs[j].Reads() || (f !in instrs[j].writeAlways && LiveAfter(instrs, |instrs|, true, j, f))
  {
    var n := |instrs|;
    if LiveAfter(instrs, n, true, j - 1, f) {
      var k :| j - 1 < k <= n && ReadAt(instrs, n, true, k, f) && KeptBetween(instrs, j - 1, k, f);
      if k > j {
        assert f !in instrs[j].writeAlways;
        assert KeptBetween(instrs, j, k, f);
      }
    }
    if f in instrs[j].Reads() {
      assert ReadAt(instrs, n, true, j, f) && KeptBetween(instrs, j - 1, j, f);
    }
    if f !in instrs[j].writeAlways && LiveAfter(instrs, n, true, j, f) {
      var k :| j < k <= n && ReadAt(instrs, n, true, k, f) && KeptBetween(instrs, j, k, f);
      assert KeptBetween(instrs, j - 1, k, f);
    }
  }

  lemma LiveBeforeAll(instrs: seq<FetchedInstr>, j: nat)
    requires j < |instrs|
    ensures forall f <- ALL_FLAGS :: LiveAfter(instrs, |instrs|, true, j - 1, f) <==>
      f in instrs[j].Reads() || (f !in instrs[j].writeAlways && LiveAfter(instrs, |instrs|, true, j, f))
    ensures forall f: Flag :: f in ALL_FLAGS
  {
    forall f <- ALL_FLAGS ensures LiveAfter(instrs, |instrs|, true, j - 1, f) <==>
      f in instrs[j].Reads() || (f !in instrs[j].writeAlways && LiveAfter(instrs, |instrs|, true, j, f))
    {
      LiveBefore(instrs, j, f);
    }
    forall f: Flag ensures f in ALL_FLAGS {
      match f case N => case Z => case C => case V =>
    }
  }

  /** Computing only the flags in `SetFlags` leaves every live flag, and all other state, as it should be. */
  lemma {:induction false} ElisionKeepsLive<S(!new)>(
    instrs: seq<FetchedInstr>, code: seq<Behaviour<S>>, n: nat, cpu: Cpu<S>)
    requires n <= |instrs| == |code| && SetFlagsExact(instrs, |instrs|, true)
    requires forall j :: 0 <= j < |instrs| ==> Obeys(instrs[j], code[j])
    ensures Run(instrs, code, n, true, cpu).state == Run(instrs, code, n, false, cpu).state
    ensures forall f :: LiveAfter(instrs, |instrs|, true, n - 1, f) ==>
      (f in Run(instrs, code, n, true, cpu).flags <==> f in Run(instrs, code, n, false, cpu).flags)
  {
    hide LiveAfter;
    if n > 0 {
      ElisionKeepsLive(instrs, code, n - 1, cpu);
      var instr := instrs[n - 1];
      var full, elided := Run(instrs, code, n - 1, false, cpu), Run(instrs, code, n - 1, true, cpu);
      LiveBeforeAll(instrs, n - 1);
      assert elided.flags * instr.Reads() == full.flags * instr.Reads();
      assert Obeys(instr, code[n - 1]);
      var o := code[n - 1](full.state, full.flags * instr.Reads());
      assert instr.writeAlways <= o.written <= instr.writeAlways + instr.writeMaybe;
    }
  }

  /** The flags that an instruction reads are what full execution gives. All flags are before one that the
      interpreter executes, at a branch that the block follows, and at the end. */
  lemma ElisionPreservesMeaning<S(!new)>(instrs: seq<FetchedInstr>, code: seq<Behaviour<S>>, n: nat, cpu: Cpu<S>)
    requires n <= |instrs| == |code| && SetFlagsExact(instrs, |instrs|, true)
    requires forall j :: 0 <= j < |instrs| ==> Obeys(instrs[j], code[j])
    ensures var full, elided := Run(instrs, code, n, false, cpu), Run(instrs, code, n, true, cpu);
      && elided.state == full.state
      && (n < |instrs| ==> elided.flags * instrs[n].readFlags == full.flags * instrs[n].readFlags)
      && (n < |instrs| && (!instrs[n].canCompile || instrs[n].followedBranch) ==> elided.flags == full.flags)
      && (n == |instrs| ==> elided.flags == full.flags)
  {
    ElisionKeepsLive(instrs, code, n, cpu);
    if n < |instrs| {
      LiveBeforeAll(instrs, n);
      var full, elided := Run(instrs, code, n, false, cpu), Run(instrs, code, n, true, cpu);
      forall f | f in instrs[n].Reads() ensures f in elided.flags <==> f in full.flags {
        assert f in ALL_FLAGS && LiveAfter(instrs, |instrs|, true, n - 1, f);
      }
      SomeReads(instrs[n]);
    } else {
      forall f ensures f in Run(instrs, code, n, true, cpu).flags <==> f in Run(instrs, code, n, false, cpu).flags {
        assert ReadAt(instrs, n, true, n, f) && KeptBetween(instrs, n - 1, n, f);
      }
    }
  }
}
