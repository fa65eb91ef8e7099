/**
  What the recompiler reads to compile a block (src/ARMJIT.cpp, `CompileBlock`), the address ranges
  and chunk masks that it derives from this, and when a retired block may stand in for a new one.

  Addresses are local addresses, one number per byte of memory that can hold code; memory is a map
  of words. Hashes are taken as injective: a hash is the sequence that was hashed.
*/
module CodeBlocks {
  newtype u32 = x: int | 0 <= x < 0x1_0000_0000

  datatype Option<T> = None | Some(value: T)

  /** How much of the word at its address the fetch of an instruction sees: all of it in ARM state, and for the
      lower one of a pair of THUMB instructions on the ARM9; otherwise one half. */
  datatype Part = Whole | Lower | Upper

  /** What a block was compiled from: an instruction, or the literal that one loads. */
  datatype Access = Fetch(addr: nat, part: Part, value: u32) | Literal(addr: nat, value: u32) {
    /** What it reads when its address is in the word `w`. */
    function Seen(w: u32): u32 {
      match this case Fetch(_, part, _) => See(part, w) case Literal(_, _) => w
    }
  }

  function See(part: Part, w: u32): u32 {
    match part case Whole => w case Lower => w % 0x1_0000 case Upper => w / 0x1_0000
  }

  type Memory = map<nat, u32>

  function ReadWord(mem: Memory, addr: nat): u32 {
    if addr / 4 in mem then mem[addr / 4] else 0
  }

  function WriteWord(mem: Memory, addr: nat, value: u32): Memory {
    mem[addr / 4 := value]
  }

  /** The two halves make up the word. */
  lemma HalvesAreWord(w: u32)
    ensures See(Whole, w) == w && See(Lower, w) < 0x1_0000
    ensures See(Lower, w) + 0x1_0000 * See(Upper, w) == w
  {
  }

  /** What does not change in a run.
      `localise`: the address mapping.
      `literalOf`: the address that the instruction `value` at `addr` loads from, if the decoder takes it for a
      literal load.
      `part`: what the fetch at an address sees; an address is always executed in the same state.
      `next`: where the block goes on after instructions at given addresses with given values, as far as this
      does not depend on anything else. Without branch optimisations it is the following instruction; with
      them, it may be the target of a branch that is always taken. */
  datatype Config = Config(localise: nat -> nat, literalOf: (u32, nat) -> Option<nat>, part: nat -> Part,
                           next: (seq<nat>, seq<u32>) -> nat)

  /** What the fetch at `addr` gives. */
  function Value(cfg: Config, mem: Memory, addr: nat): u32 {
    See(cfg.part(addr), ReadWord(mem, cfg.localise(addr)))
  }

  /** What the instruction at `addr` contributes. */
  function Visit(cfg: Config, mem: Memory, invalidLiterals: set<nat>, addr: nat): (accesses: seq<Access>)
    ensures |accesses| > 0
  {
    var value := Value(cfg, mem, addr);
    [Fetch(cfg.localise(addr), cfg.part(addr), value)] +
    match cfg.literalOf(value, addr)
    case None => []
    case Some(l) =>
      if cfg.localise(l) in invalidLiterals then [] else [Literal(cfg.localise(l), ReadWord(mem, cfg.localise(l)))]
  }

  /** Everything read while compiling the instructions at `addrs`. */
  function Accesses(cfg: Config, mem: Memory, invalidLiterals: set<nat>, addrs: seq<nat>): seq<Access> {
    if addrs == [] then []
    else Accesses(cfg, mem, invalidLiterals, addrs[..|addrs| - 1])
         + Visit(cfg, mem, invalidLiterals, addrs[|addrs| - 1])
  }

  function InstrValues(code: seq<Access>): seq<u32> {
    if code == [] then []
    else InstrValues(code[..|code| - 1]) + match code[|code| - 1] case Fetch(_, _, v) => [v] case Literal(_, _) => []
  }

  function LiteralValues(code: seq<Access>): seq<u32> {
    if code == [] then []
    else LiteralValues(code[..|code| - 1]) + match code[|code| - 1] case Fetch(_, _, _) => [] case Literal(_, v) => [v]
  }

  function LiteralAddrs(code: seq<Access>): seq<nat> {
    if code == [] then []
    else LiteralAddrs(code[..|code| - 1]) + match code[|code| - 1] case Fetch(_, _, _) => [] case Literal(a, _) => [a]
  }

  /** The literal at `addr` is among what a block was compiled from. */
  ghost predicate LoadsLiteral(code: seq<Access>, addr: nat) {
    exists a :: a in code && a.Literal? && a.addr == addr
  }

  lemma {:induction false} LiteralAddrsAre(code: seq<Access>, addr: nat)
    ensures addr in LiteralAddrs(code) <==> LoadsLiteral(code, addr)
  {
    if code != [] {
      var front, last := code[..|code| - 1], code[|code| - 1];
      LiteralAddrsAre(front, addr);
      assert code == front + [last];
    }
  }

  /** An invalid literal is not looked at. */
  lemma {:induction false} InvalidIsNotLoaded(cfg: Config, mem: Memory, invalidLiterals: set<nat>, addrs: seq<nat>, addr: nat)
    requires addr in invalidLiterals
    ensures !LoadsLiteral(Accesses(cfg, mem, invalidLiterals, addrs), addr)
  {
    if addrs != [] {
      InvalidIsNotLoaded(cfg, mem, invalidLiterals, addrs[..|addrs| - 1], addr);
    }
  }

  /** What a block was compiled from is what memory holds. */
  ghost predicate Fresh(code: seq<Access>, mem: Memory) {
    forall a <- code :: a.Seen(ReadWord(mem, a.addr)) == a.value
  }

  lemma {:induction false} AccessesAreFresh(cfg: Config, mem: Memory, invalidLiterals: set<nat>, addrs: seq<nat>)
    ensures Fresh(Accesses(cfg, mem, invalidLiterals, addrs), mem)
  {
    if addrs != [] {
      AccessesAreFresh(cfg, mem, invalidLiterals, addrs[..|addrs| - 1]);
    }
  }

  // ----- address ranges and masks -----

  /** The 512-byte ranges that a block touches, and for each the 16-byte chunks. */
  datatype Footprint = Footprint(ranges: seq<nat>, masks: seq<set<nat>>) {
    ghost predicate Valid() {
      && |ranges| == |masks|
      && (forall i :: 0 <= i < |masks| ==> masks[i] != {})
      && forall i, j :: 0 <= i < j < |ranges| ==> ranges[i] != ranges[j]
    }

    /** The mask of range `r` has chunk `c`. */
    ghost predicate HasChunk(r: nat, c: nat) {
      exists i :: 0 <= i < |ranges| && i < |masks| && ranges[i] == r && c in masks[i]
    }

    ghost predicate Covers(addr: nat) {
      HasChunk(RangeOf(addr), ChunkOf(addr))
    }
  }

  function RangeOf(addr: nat): nat { addr / 512 }
  function ChunkOf(addr: nat): nat { addr % 512 / 16 }

  /** A chunk is 16 bytes of memory, a range 512 bytes with 32 chunks. */
  lemma ChunksAre(a: nat, b: nat)
    ensures RangeOf(a) == RangeOf(b) <==> a / 512 == b / 512
    ensures RangeOf(a) == RangeOf(b) && ChunkOf(a) == ChunkOf(b) <==> a / 16 == b / 16
    ensures ChunkOf(a) < 32
  {
    ChunkNumber(a);
    ChunkNumber(b);
  }

  lemma ChunkNumber(a: nat)
    ensures a / 16 == 32 * RangeOf(a) + ChunkOf(a) && ChunkOf(a) < 32
  {
    assert a == 512 * (a / 512) + a % 512;
  }

  /** Where `r` is listed, or the number of ranges. */
  function Find(ranges: seq<nat>, r: nat): (i: nat)
    ensures i <= |ranges| && (i < |ranges| ==> ranges[i] == r) && (i == |ranges| ==> r !in ranges)
  {
    if ranges == [] then 0
    else if ranges[0] == r then 0
    else 1 + Find(ranges[1..], r)
  }

  /** An instruction: its range is moved to the end, or appended, and the mask there grows. */
  function TouchFetch(f: Footprint, addr: nat): Footprint
    requires f.Valid()
  {
    var r, n, j := RangeOf(addr), |f.ranges|, Find(f.ranges, RangeOf(addr));
    if j == n then Footprint(f.ranges + [r], f.masks + [{ChunkOf(addr)}])
    else Footprint(f.ranges[j := f.ranges[n - 1]][n - 1 := r],
                   f.masks[j := f.masks[n - 1]][n - 1 := f.masks[j] + {ChunkOf(addr)}])
  }

  /** A literal: the mask of its range grows where it is, or the range is appended. */
  function TouchLiteral(f: Footprint, addr: nat): Footprint
    requires f.Valid()
  {
    var r, n, j := RangeOf(addr), |f.ranges|, Find(f.ranges, RangeOf(addr));
    if j == n then Footprint(f.ranges + [r], f.masks + [{ChunkOf(addr)}])
    else Footprint(f.ranges, f.masks[j := f.masks[j] + {ChunkOf(addr)}])
  }

  function Touch(f: Footprint, a: Access): Footprint
    requires f.Valid()
  {
    match a
    case Fetch(addr, _, _) => TouchFetch(f, addr)
    case Literal(addr, _) => TouchLiteral(f, addr)
  }

  lemma TouchFetchIsValid(f: Footprint, addr: nat)
    requires f.Valid()
    ensures TouchFetch(f, addr).Valid()
  {
    hide RangeOf, ChunkOf, Find;
  }

  lemma TouchFetchAdds(f: Footprint, addr: nat, r: nat, c: nat)
    requires f.Valid()
    ensures TouchFetch(f, addr).Valid()
    ensures TouchFetch(f, addr).HasChunk(r, c) <==> f.HasChunk(r, c) || (r == RangeOf(addr) && c == ChunkOf(addr))
  {
    hide RangeOf, ChunkOf, Find;
    TouchFetchIsValid(f, addr);
    var f', n, j := TouchFetch(f, addr), |f.ranges|, Find(f.ranges, RangeOf(addr));
    if f.HasChunk(r, c) {
      var i :| 0 <= i < n && f.ranges[i] == r && c in f.masks[i];
      var i' := if i == j then n - 1 else if j < n && i == n - 1 then j else i;
      assert f'.ranges[i'] == r && c in f'.masks[i'];
    }
    if r == RangeOf(addr) && c == ChunkOf(addr) {
      var i' := if j < n then n - 1 else n;
      assert f'.ranges[i'] == r && c in f'.masks[i'];
    }
    if f'.HasChunk(r, c) {
      var i' :| 0 <= i' < |f'.ranges| && f'.ranges[i'] == r && c in f'.masks[i'];
      var i := if j < n && i' == n - 1 then j else if i' == j then n - 1 else i';
      assert i < n && j < n ==> f.ranges[i] == r;
    }
  }

  lemma TouchLiteralAdds(f: Footprint, addr: nat, r: nat, c: nat)
    requires f.Valid()
    ensures TouchLiteral(f, addr).Valid()
    ensures TouchLiteral(f, addr).HasChunk(r, c) <==> f.HasChunk(r, c) || (r == RangeOf(addr) && c == ChunkOf(addr))
  {
    hide RangeOf, ChunkOf;
    var f', n, j := TouchLiteral(f, addr), |f.ranges|, Find(f.ranges, RangeOf(addr));
    if f.HasChunk(r, c) {
      var i :| 0 <= i < n && f.ranges[i] == r && c in f.masks[i];
      assert f'.ranges[i] == r && c in f'.masks[i];
    }
    if r == RangeOf(addr) && c == ChunkOf(addr) {
      assert f'.ranges[j] == r && c in f'.masks[j];
    }
  }

  lemma TouchAdds(f: Footprint, a: Access, r: nat, c: nat)
    requires f.Valid()
    ensures Touch(f, a).Valid()
    ensures Touch(f, a).HasChunk(r, c) <==> f.HasChunk(r, c) || (r == RangeOf(a.addr) && c == ChunkOf(a.addr))
  {
    if a.Fetch? {
      TouchFetchAdds(f, a.addr, r, c);
    } else {
      TouchLiteralAdds(f, a.addr, r, c);
    }
  }

  /** Ranges and masks of everything a block was compiled from. */
  function Build(code: seq<Access>): (f: Footprint)
    ensures f.Valid()
  {
    if code == [] then Footprint([], [])
    else
      var f := Build(code[..|code| - 1]);
      TouchAdds(f, code[|code| - 1], 0, 0);
      Touch(f, code[|code| - 1])
  }

  /** The masks have the chunks of the words that the block was compiled from, and no others. */
  lemma {:induction false} BuildIsExact(code: seq<Access>, r: nat, c: nat)
    ensures Build(code).HasChunk(r, c) <==> exists a :: a in code && RangeOf(a.addr) == r && ChunkOf(a.addr) == c
  {
    if code != [] {
      var init, last := code[..|code| - 1], code[|code| - 1];
      BuildIsExact(init, r, c);
      TouchAdds(Build(init), last, r, c);
      assert code == init + [last];
    }
  }

  /** A block lists exactly the ranges it has words in. */
  lemma RangesAreExact(code: seq<Access>, r: nat)
    ensures r in Build(code).ranges <==> exists a :: a in code && RangeOf(a.addr) == r
  {
    hide Build, RangeOf, ChunkOf;
    var f := Build(code);
    if r in f.ranges {
      var i :| 0 <= i < |f.ranges| && f.ranges[i] == r;
      var c :| c in f.masks[i];
      assert f.HasChunk(r, c);
      BuildIsExact(code, r, c);
    }
    if a :| a in code && RangeOf(a.addr) == r {
      BuildIsExact(code, r, ChunkOf(a.addr));
    }
  }

  lemma BuildCovers(code: seq<Access>, a: Access)
    requires a in code
    ensures Build(code).Covers(a.addr)
  {
    BuildIsExact(code, RangeOf(a.addr), ChunkOf(a.addr));
  }

  /** The loop over the ranges so far, as `CompileBlock` runs it for an instruction. */
  method RecordFetch(ranges: seq<nat>, masks: seq<set<nat>>, first: bool, translatedAddr: nat)
    returns (ranges': seq<nat>, masks': seq<set<nat>>)
    requires Footprint(ranges, masks).Valid() && (first <==> ranges == [])
    ensures Footprint(ranges', masks') == TouchFetch(Footprint(ranges, masks), translatedAddr)
  {
    ranges', masks' := ranges, masks;
    var rounded := RangeOf(translatedAddr);
    if first || rounded != ranges[|ranges| - 1] {
      var returning := false;
      var j := 0;
      while j < |ranges|
        invariant j <= |ranges| && rounded !in ranges[..j]
        invariant !returning && ranges' == ranges && masks' == masks
      {
        if ranges[j] == rounded {
          ranges' := ranges'[j := ranges[|ranges| - 1]][|ranges| - 1 := ranges[j]];
          masks' := masks'[j := masks[|ranges| - 1]][|ranges| - 1 := masks[j]];
          returning := true;
          break;
        }
        j := j + 1;
      }
      if !returning {
        ranges' := ranges' + [rounded];
        masks' := masks' + [{}];
      }
    }
    var last := |ranges'| - 1;
    masks' := masks'[last := masks'[last] + {ChunkOf(translatedAddr)}];
    ghost var f := TouchFetch(Footprint(ranges, masks), translatedAddr);
    assert {} + {ChunkOf(translatedAddr)} == {ChunkOf(translatedAddr)};
    assert ranges' == f.ranges && masks' == f.masks;
  }

  /** The loop over the ranges so far, as `CompileBlock` runs it for a literal. */
  method RecordLiteral(ranges: seq<nat>, masks: seq<set<nat>>, translatedAddr: nat)
    returns (ranges': seq<nat>, masks': seq<set<nat>>)
    requires Footprint(ranges, masks).Valid()
    ensures Footprint(ranges', masks') == TouchLiteral(Footprint(ranges, masks), translatedAddr)
  {
    ranges', masks' := ranges, masks;
    var rounded := RangeOf(translatedAddr);
    var j := 0;
    while j < |ranges| && ranges[j] != rounded
      invariant j <= |ranges| && rounded !in ranges[..j]
    {
      j := j + 1;
    }
    if j == |ranges| {
      ranges' := ranges' + [rounded];
      masks' := masks' + [{}];
    }
    masks' := masks'[j := masks'[j] + {ChunkOf(translatedAddr)}];
    ghost var f := TouchLiteral(Footprint(ranges, masks), translatedAddr);
    assert j == Find(ranges, rounded);
    assert {} + {ChunkOf(translatedAddr)} == {ChunkOf(translatedAddr)};
    assert ranges' == f.ranges && masks' == f.masks;
  }

  /** One more access adds to the hashes and the footprint. */
  lemma AppendAccess(code: seq<Access>, a: Access)
    ensures Build(code + [a]) == Touch(Build(code), a)
    ensures InstrValues(code + [a]) == InstrValues(code) + if a.Fetch? then [a.value] else []
    ensures LiteralValues(code + [a]) == LiteralValues(code) + if a.Fetch? then [] else [a.value]
    ensures LiteralAddrs(code + [a]) == LiteralAddrs(code) + if a.Fetch? then [] else [a.addr]
  {
    assert (code + [a])[..|code|] == code;
  }

  lemma NothingRead(cfg: Config, mem: Memory, invalidLiterals: set<nat>)
    ensures Accesses(cfg, mem, invalidLiterals, []) == [] && Build([]) == Footprint([], [])
    ensures InstrValues([]) == [] && LiteralValues([]) == [] && LiteralAddrs([]) == []
  {
  }

  lemma NothingYet()
    ensures Build([]) == Footprint([], []) && InstrValues([]) == [] && LiteralValues([]) == [] && LiteralAddrs([]) == []
  {
  }

  lemma OneMoreInstr(cfg: Config, mem: Memory, invalidLiterals: set<nat>, addrs: seq<nat>, i: nat)
    requires i < |addrs|
    ensures Accesses(cfg, mem, invalidLiterals, addrs[..i + 1])
         == Accesses(cfg, mem, invalidLiterals, addrs[..i]) + Visit(cfg, mem, invalidLiterals, addrs[i])
  {
    assert addrs[..i + 1][..i] == addrs[..i];
  }

  lemma TouchIsNotEmpty(f: Footprint, a: Access)
    requires f.Valid()
    ensures Touch(f, a).ranges != []
  {
  }

  // ----- restoring a retired block -----

  datatype JitBlock = JitBlock(
    ptr: nat,
    startAddr: nat,
    startAddrLocal: nat,
    instrHash: seq<u32>,
    literalHash: seq<u32>,
    footprint: Footprint,
    literals: seq<nat>,
    entryPoint: seq<Access>)
  {
    /** The record agrees with what the machine code at `entryPoint` was compiled from. */
    ghost predicate Valid(cfg: Config) {
      && startAddrLocal == cfg.localise(startAddr)
      && instrHash == InstrValues(entryPoint)
      && literalHash == LiteralValues(entryPoint)
      && footprint == Build(entryPoint)
      && literals == LiteralAddrs(entryPoint)
    }
  }

  function MakeBlock(cfg: Config, ptr: nat, startAddr: nat, code: seq<Access>): (b: JitBlock)
    ensures b.Valid(cfg)
  {
    JitBlock(ptr, startAddr, cfg.localise(startAddr), InstrValues(code), LiteralValues(code), Build(code),
             LiteralAddrs(code), code)
  }

  /** The tests that `CompileBlock` puts to a restore candidate. */
  predicate MayRestore(prev: JitBlock, blockAddr: nat, code: seq<Access>) {
    && prev.instrHash == InstrValues(code)
    && prev.startAddr == blockAddr
    && prev.literalHash == LiteralValues(code)
    && prev.footprint == Build(code)
  }

  /** The values of the instructions at `addrs`. */
  function Values(cfg: Config, mem: Memory, addrs: seq<nat>): seq<u32> {
    seq(|addrs|, i requires 0 <= i < |addrs| => Value(cfg, mem, addrs[i]))
  }

  /** The addresses of `n` instructions from `start` on, where each is determined by the ones before. */
  function Path(cfg: Config, mem: Memory, start: nat, n: nat): (addrs: seq<nat>)
    ensures |addrs| == n && (n > 0 ==> addrs[0] == start)
  {
    if n == 0 then []
    else if n == 1 then [start]
    else
      var addrs := Path(cfg, mem, start, n - 1);
      addrs + [cfg.next(addrs, Values(cfg, mem, addrs))]
  }

  /** Instructions in a row. */
  function Straight(start: nat, step: nat, n: nat): seq<nat> {
    seq(n, i => start + step * i)
  }

  /** Without branch optimisations every block is straight: four bytes apart in ARM state, two in THUMB state. */
  lemma {:induction false} StraightIsPath(cfg: Config, mem: Memory, start: nat, step: nat, n: nat)
    requires forall addrs, values :: addrs != [] ==> cfg.next(addrs, values) == addrs[|addrs| - 1] + step
    ensures Path(cfg, mem, start, n) == Straight(start, step, n)
  {
    if n > 1 {
      StraightIsPath(cfg, mem, start, step, n - 1);
      assert start + step * (n - 2) + step == start + step * (n - 1);
    }
  }

  /** Blocks of the same start and length whose instructions have the same values are at the same addresses. */
  lemma {:induction false} PathDetermined(cfg: Config, mem: Memory, mem': Memory, start: nat, n: nat)
    requires Values(cfg, mem, Path(cfg, mem, start, n)) == Values(cfg, mem', Path(cfg, mem', start, n))
    ensures Path(cfg, mem, start, n) == Path(cfg, mem', start, n)
  {
    hide Value;
    if n > 1 {
      var p, p' := Path(cfg, mem, start, n - 1), Path(cfg, mem', start, n - 1);
      var q, q' := Path(cfg, mem, start, n), Path(cfg, mem', start, n);
      assert q[..n - 1] == p && q'[..n - 1] == p';
      assert Values(cfg, mem, p) == Values(cfg, mem, q)[..n - 1];
      assert Values(cfg, mem', p') == Values(cfg, mem', q')[..n - 1];
      PathDetermined(cfg, mem, mem', start, n - 1);
    }
  }

  /** One more instruction adds what it contributes to both hashes. */
  lemma VisitAppends(cfg: Config, mem: Memory, invalidLiterals: set<nat>, code: seq<Access>, addr: nat)
    ensures var visit := Visit(cfg, mem, invalidLiterals, addr);
      && InstrValues(code + visit) == InstrValues(code) + [visit[0].value]
      && LiteralValues(code + visit) == LiteralValues(code) + if |visit| == 1 then [] else [visit[1].value]
  {
    var visit := Visit(cfg, mem, invalidLiterals, addr);
    var one := code + [visit[0]];
    assert one[..|one| - 1] == code;
    if |visit| == 1 {
      assert code + visit == one;
    } else {
      var two := code + visit;
      assert two[..|two| - 1] == one;
    }
  }

  /** Two blocks at the same addresses, with the same hashes, were compiled from the same values, if no literal
      has become valid again in between. */
  lemma {:induction false} AccessesDetermined(
    cfg: Config, mem: Memory, mem': Memory, invalid: set<nat>, invalid': set<nat>, addrs: seq<nat>)
    requires invalid <= invalid'
    requires InstrValues(Accesses(cfg, mem, invalid, addrs)) == InstrValues(Accesses(cfg, mem', invalid', addrs))
    ensures |LiteralValues(Accesses(cfg, mem, invalid, addrs))| >= |LiteralValues(Accesses(cfg, mem', invalid', addrs))|
    ensures LiteralValues(Accesses(cfg, mem, invalid, addrs)) == LiteralValues(Accesses(cfg, mem', invalid', addrs))
      ==> Accesses(cfg, mem, invalid, addrs) == Accesses(cfg, mem', invalid', addrs)
  {
    hide Visit, InstrValues, LiteralValues;
    if addrs != [] {
      var front, addr := addrs[..|addrs| - 1], addrs[|addrs| - 1];
      var init, init' := Accesses(cfg, mem, invalid, front), Accesses(cfg, mem', invalid', front);
      VisitAppends(cfg, mem, invalid, init, addr);
      VisitAppends(cfg, mem', invalid', init', addr);
      SameLengthParts(InstrValues(init), Visit(cfg, mem, invalid, addr)[0].value,
                      InstrValues(init'), Visit(cfg, mem', invalid', addr)[0].value);
      VisitDetermined(cfg, mem, mem', invalid, invalid', addr);
      AccessesDetermined(cfg, mem, mem', invalid, invalid', front);
      var l, l' := LiteralValues(init), LiteralValues(init');
      var visit, visit' := Visit(cfg, mem, invalid, addr), Visit(cfg, mem', invalid', addr);
      if |visit| == |visit'| == 2 && l + [visit[1].value] == l' + [visit'[1].value] {
        SameLengthParts(l, visit[1].value, l', visit'[1].value);
      } else if |visit| == |visit'| == 1 {
        assert l + [] == l && l' + [] == l';
      }
    }
  }

  lemma VisitDetermined(cfg: Config, mem: Memory, mem': Memory, invalid: set<nat>, invalid': set<nat>, addr: nat)
    requires invalid <= invalid' && Visit(cfg, mem, invalid, addr)[0].value == Visit(cfg, mem', invalid', addr)[0].value
    ensures var visit, visit' := Visit(cfg, mem, invalid, addr), Visit(cfg, mem', invalid', addr);
      && 1 <= |visit'| <= |visit| <= 2 && visit[0] == visit'[0]
      && (|visit| == |visit'| == 2 && visit[1].value == visit'[1].value ==> visit == visit')
      && (|visit| == 1 ==> visit == visit')
  {
  }

  lemma SameLengthParts(a: seq<u32>, x: u32, b: seq<u32>, y: u32)
    requires a + [x] == b + [y]
    ensures a == b && x == y
  {
    assert (a + [x])[..|a|] == a && (b + [y])[..|b|] == b;
    assert (a + [x])[|a|] == x && (b + [y])[|b|] == y;
  }

  lemma {:induction false} InstrValuesAre(cfg: Config, mem: Memory, invalid: set<nat>, addrs: seq<nat>)
    ensures InstrValues(Accesses(cfg, mem, invalid, addrs)) == Values(cfg, mem, addrs)
  {
    hide Value;
    if addrs != [] {
      var front, addr := addrs[..|addrs| - 1], addrs[|addrs| - 1];
      InstrValuesAre(cfg, mem, invalid, front);
      VisitAppends(cfg, mem, invalid, Accesses(cfg, mem, invalid, front), addr);
      assert Visit(cfg, mem, invalid, addr)[0].value == Value(cfg, mem, addr);
    }
  }

  /** `code` was read from some memory along its path, with no more literals invalid than now. */
  ghost predicate PathCode(cfg: Config, start: nat, code: seq<Access>, invalidNow: set<nat>) {
    exists mem, invalid, n :: invalid <= invalidNow && code == Accesses(cfg, mem, invalid, Path(cfg, mem, start, n))
  }

  lemma ReadAlongPath(cfg: Config, mem: Memory, invalid: set<nat>, start: nat, n: nat)
    ensures PathCode(cfg, start, Accesses(cfg, mem, invalid, Path(cfg, mem, start, n)), invalid)
  {
    hide Path, Accesses;
    assert invalid <= invalid;
  }

  lemma PathCodeStays(cfg: Config, start: nat, code: seq<Access>, invalid: set<nat>, invalid': set<nat>)
    requires PathCode(cfg, start, code, invalid) && invalid <= invalid'
    ensures PathCode(cfg, start, code, invalid')
  {
    hide Path, Accesses;
    var mem0, invalid0, n0 :| invalid0 <= invalid && code == Accesses(cfg, mem0, invalid0, Path(cfg, mem0, start, n0));
    assert invalid0 <= invalid';
  }

  /** A candidate compiled along its path may stand in for a block that is, too. */
  lemma PathRestoreIsSound(cfg: Config, prev: JitBlock, mem: Memory, invalidNow: set<nat>, start: nat, n: nat)
    requires prev.Valid(cfg) && PathCode(cfg, prev.startAddr, prev.entryPoint, invalidNow)
    requires MayRestore(prev, start, Accesses(cfg, mem, invalidNow, Path(cfg, mem, start, n)))
    ensures prev.entryPoint == Accesses(cfg, mem, invalidNow, Path(cfg, mem, start, n)) && Fresh(prev.entryPoint, mem)
  {
    hide Path, Accesses, Build, MayRestore, Values;
    var addrs := Path(cfg, mem, start, n);
    RestoreTests(prev, start, Accesses(cfg, mem, invalidNow, addrs));
    var mem0, invalid0, n0 :| invalid0 <= invalidNow && prev.entryPoint == Accesses(cfg, mem0, invalid0, Path(cfg, mem0, start, n0));
    InstrValuesAre(cfg, mem0, invalid0, Path(cfg, mem0, start, n0));
    InstrValuesAre(cfg, mem, invalidNow, addrs);
    ValuesLength(cfg, mem0, Path(cfg, mem0, start, n0));
    ValuesLength(cfg, mem, addrs);
    PathDetermined(cfg, mem0, mem, start, n);
    AccessesDetermined(cfg, mem0, mem, invalid0, invalidNow, addrs);
    AccessesAreFresh(cfg, mem, invalidNow, addrs);
  }

  lemma ValuesLength(cfg: Config, mem: Memory, addrs: seq<nat>)
    ensures |Values(cfg, mem, addrs)| == |addrs|
  {
  }

  lemma RestoreTests(prev: JitBlock, blockAddr: nat, code: seq<Access>)
    requires MayRestore(prev, blockAddr, code)
    ensures prev.startAddr == blockAddr
    ensures prev.instrHash == InstrValues(code) && prev.literalHash == LiteralValues(code)
  {
  }

  /** Some word agrees with all that `code` has read of it, but not with `a`. */
  ghost predicate Escapes(a: Access, code: seq<Access>, w: u32) {
    a.Seen(w) != a.value && forall c <- code :: c.addr / 4 == a.addr / 4 ==> c.Seen(w) == c.value
  }

  /** What `prev` was compiled from follows, word by word, from what `code` was. */
  ghost predicate Within(prev: seq<Access>, code: seq<Access>) {
    forall a, w :: a in prev ==> !Escapes(a, code, w)
  }

  /** In general a restored block is right, whatever else is in memory, exactly if all that it was compiled from
      follows from what the new fetch has read. `CompileBlock` does not compare the two. */
  lemma RestoreIsSoundIff(prev: seq<Access>, code: seq<Access>, mem: Memory)
    requires Fresh(code, mem)
    ensures Within(prev, code) <==> forall m :: Fresh(code, m) ==> Fresh(prev, m)
  {
    if Within(prev, code) {
      forall m | Fresh(code, m) ensures Fresh(prev, m) {
        forall a <- prev ensures a.Seen(ReadWord(m, a.addr)) == a.value {
          assert !Escapes(a, code, ReadWord(m, a.addr));
        }
      }
    } else {
      var a, w :| a in prev && Escapes(a, code, w);
      var m := WriteWord(mem, a.addr, w);
      assert Fresh(code, m);
      assert !Fresh(prev, m);
    }
  }

  /** For whole words this says that every one of `prev` is one of those just read, with the same value. */
  lemma WithinWords(prev: seq<Access>, code: seq<Access>, mem: Memory)
    requires Fresh(code, mem)
    requires forall a <- prev + code :: a.Fetch? ==> a.part == Whole
    ensures Within(prev, code) <==>
            forall a <- prev :: exists c :: c in code && c.addr / 4 == a.addr / 4 && c.value == a.value
  {
    forall a | a in prev
      ensures (forall w :: !Escapes(a, code, w)) <==> exists c :: c in code && c.addr / 4 == a.addr / 4 && c.value == a.value
    {
      assert a in prev + code;
      assert forall c <- code :: c in prev + code;
      var other := if a.value == 0 then 1 else 0;
      if exists c :: c in code && c.addr / 4 == a.addr / 4 {
        var c :| c in code && c.addr / 4 == a.addr / 4;
        assert Escapes(a, code, c.value) <==> c.value != a.value;
      } else {
        assert Escapes(a, code, other);
      }
    }
  }

  /** It does happen that `CompileBlock` restores a block that is stale: with branch optimisations, one
      compiled along the taken side of a branch (BEQ at 1024, then the target 1032) is accepted for the
      other side (1024, then 1028), where the words and chunks are the same, after its own word at 1032
      has been overwritten. */
  lemma BranchRestoreIsStale(cfg: Config, invalid: set<nat>, invalid': set<nat>)
    requires forall a :: cfg.localise(a) == a
    requires (forall v, a :: cfg.literalOf(v, a) == None) && forall a :: cfg.part(a) == Whole
    ensures var taken := MakeBlock(cfg, 0, 1024, Accesses(cfg, BRANCH_MEMORY, invalid, [1024, 1032]));
      var mem' := WriteWord(BRANCH_MEMORY, 1032, 0xE3A0_0000);
      var notTaken := Accesses(cfg, mem', invalid', [1024, 1028]);
      && Fresh(taken.entryPoint, BRANCH_MEMORY) && Fresh(notTaken, mem')
      && taken.footprint.Covers(1032) && taken.literals == []
      && MayRestore(taken, 1024, notTaken)
      && !Fresh(taken.entryPoint, mem')
  {
    hide Accesses, InstrValues, LiteralValues, Build, Footprint.Covers;
    var mem' := WriteWord(BRANCH_MEMORY, 1032, 0xE3A0_0000);
    AccessesAreFresh(cfg, BRANCH_MEMORY, invalid, [1024, 1032]);
    AccessesAreFresh(cfg, mem', invalid', [1024, 1028]);
    var a := Fetch(1024, Whole, 0x0A00_0000);
    var b, b' := Fetch(1032, Whole, 0xE12F_FF1E), Fetch(1028, Whole, 0xE12F_FF1E);
    TwoInstructions(cfg, BRANCH_MEMORY, invalid, 1024, 1032);
    TwoInstructions(cfg, mem', invalid', 1024, 1028);
    TwoFetches(a, b);
    TwoFetches(a, b');
    BuildCovers([a, b], b);
    assert b in [a, b];
  }

  /** BEQ over one instruction, with BX lr at either side of it. */
  const BRANCH_MEMORY: Memory := map[256 := 0x0A00_0000, 257 := 0xE12F_FF1E, 258 := 0xE12F_FF1E]

  lemma TwoInstructions(cfg: Config, mem: Memory, invalid: set<nat>, x: nat, y: nat)
    requires cfg.localise(x) == x && cfg.localise(y) == y
    requires (forall v, a :: cfg.literalOf(v, a) == None) && forall a :: cfg.part(a) == Whole
    ensures Accesses(cfg, mem, invalid, [x, y]) == [Fetch(x, Whole, ReadWord(mem, x)), Fetch(y, Whole, ReadWord(mem, y))]
  {
    assert [x, y][..1] == [x] && [x][..0] == [];
    assert Accesses(cfg, mem, invalid, [x]) == [Fetch(x, Whole, ReadWord(mem, x))];
  }

  lemma TwoFetches(a: Access, b: Access)
    requires a.Fetch? && b.Fetch? && RangeOf(a.addr) == RangeOf(b.addr) && ChunkOf(a.addr) == ChunkOf(b.addr)
    ensures InstrValues([a, b]) == [a.value, b.value] && LiteralValues([a, b]) == [] && LiteralAddrs([a, b]) == []
    ensures Build([a, b]) == Footprint([RangeOf(a.addr)], [{ChunkOf(a.addr)}])
  {
    hide Touch, RangeOf, ChunkOf, Build, InstrValues, LiteralValues, LiteralAddrs;
    OneFetch(a);
    AppendAccess([a], b);
    assert [a] + [b] == [a, b];
    TouchTwice(a, b);
  }

  lemma OneFetch(a: Access)
    requires a.Fetch?
    ensures InstrValues([a]) == [a.value] && LiteralValues([a]) == [] && LiteralAddrs([a]) == []
    ensures Build([a]) == Touch(Footprint([], []), a)
  {
    hide Touch, Build, InstrValues, LiteralValues, LiteralAddrs;
    NothingYet();
    AppendAccess([], a);
    assert [] + [a] == [a];
  }

  lemma TouchTwice(a: Access, b: Access)
    requires a.Fetch? && b.Fetch? && RangeOf(a.addr) == RangeOf(b.addr) && ChunkOf(a.addr) == ChunkOf(b.addr)
    ensures var once := Footprint([RangeOf(a.addr)], [{ChunkOf(a.addr)}]);
      Touch(Footprint([], []), a) == once && Touch(once, b) == once
  {
    var once := Footprint([RangeOf(a.addr)], [{ChunkOf(a.addr)}]);
    assert Find([RangeOf(a.addr)], RangeOf(b.addr)) == 0;
    assert Touch(once, b).masks[0] == once.masks[0];
  }
}
