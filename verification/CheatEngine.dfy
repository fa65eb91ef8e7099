/**
  The Action Replay virtual machine (src/AREngine.cpp): an interpreter of cheat codes with conditions, one
  level of loops and payload lines. The code walks over raw words and packs the conditions it is nested in
  into the bits of a word; the reference machine here runs over parsed lines and counts them.
*/
module CheatEngine {
  const WORD := 0x1_0000_0000
  const HALF := 0x8000_0000

  type u32 = x: nat | x < 0x1_0000_0000
  type u8 = x: nat | x < 256

  function Add(x: u32, y: u32): u32 { (x + y) % WORD }

  // ----- memory -----

  /** Bytes; what was never written is zero. */
  type Memory = map<u32, u8>

  function Read8(m: Memory, addr: u32): u8 { if addr in m then m[addr] else 0 }

  function Read16(m: Memory, addr: u32): u32 {
    var at := addr - addr % 2;
    Read8(m, at) + 0x100 * Read8(m, at + 1)
  }

  /** The low address bits are ignored. */
  function Read32(m: Memory, addr: u32): u32 {
    var at := addr - addr % 4;
    Read8(m, at) + 0x100 * Read8(m, at + 1) + 0x10000 * Read8(m, at + 2) + 0x1000000 * Read8(m, at + 3)
  }

  function ByteOf(v: u32, k: nat): u8
    requires k < 4
  {
    if k == 0 then v % 256 else if k == 1 then v / 0x100 % 256 else if k == 2 then v / 0x10000 % 256 else v / 0x1000000 % 256
  }

  function Write8(m: Memory, addr: u32, v: u32): Memory { m[addr := v % 256] }

  function Write16(m: Memory, addr: u32, v: u32): Memory {
    var at := addr - addr % 2;
    m[at := ByteOf(v, 0)][at + 1 := ByteOf(v, 1)]
  }

  function Write32(m: Memory, addr: u32, v: u32): Memory {
    var at := addr - addr % 4;
    m[at := ByteOf(v, 0)][at + 1 := ByteOf(v, 1)][at + 2 := ByteOf(v, 2)][at + 3 := ByteOf(v, 3)]
  }

  /** The first `n` bytes of the words of `payload`, written word by word and then byte by byte. */
  function Pasted(m: Memory, dst: u32, payload: seq<u32>, n: nat): Memory
    requires n <= 4 * |payload|
    decreases n
  {
    if n >= 4 then Pasted(Write32(m, dst, payload[0]), Add(dst, 4), payload[1..], n - 4)
    else if n > 0 then PastedBytes(m, dst, payload[0], 0, n)
    else m
  }

  /** Bytes `k` to `n` of a word. */
  function PastedBytes(m: Memory, dst: u32, word: u32, k: nat, n: nat): Memory
    requires k <= n <= 4
    decreases n - k
  {
    if k == n then m else PastedBytes(Write8(m, dst, ByteOf(word, k)), Add(dst, 1), word, k + 1, n)
  }

  function Copied(m: Memory, src: u32, dst: u32, n: nat): Memory
    decreases n
  {
    if n >= 4 then Copied(Write32(m, dst, Read32(m, src)), Add(src, 4), Add(dst, 4), n - 4)
    else if n > 0 then Copied(Write8(m, dst, Read8(m, src)), Add(src, 1), Add(dst, 1), n - 1)
    else m
  }

  // ----- lines -----

  /** An instruction of two words; a payload follows the instructions 0xE0 to 0xEF. */
  datatype Line = Line(a: u32, b: u32, payload: seq<u32>)

  function Op(a: u32): u32 { a / 0x1000000 }

  /** The code counts the payload in steps of eight bytes. */
  function PayloadWords(a: u32, b: u32): nat {
    if Op(a) / 16 == 0xE then (b + 7) / 8 * 2 else 0
  }

  /** From `pos` on, the code is whole lines, with their payloads inside the code. */
  predicate WellFormed(code: seq<u32>, pos: nat)
    requires pos <= |code|
    decreases |code| - pos
  {
    pos == |code| ||
    (pos + 2 <= |code| &&
     var next := pos + 2 + PayloadWords(code[pos], code[pos + 1]);
     next <= |code| && WellFormed(code, next))
  }

  function Lines(code: seq<u32>, pos: nat): seq<Line>
    requires pos <= |code| && WellFormed(code, pos)
    decreases |code| - pos
  {
    if pos == |code| then []
    else
      var next := pos + 2 + PayloadWords(code[pos], code[pos + 1]);
      [Line(code[pos], code[pos + 1], code[pos + 2..next])] + Lines(code, next)
  }

  // ----- the reference machine -----

  /** `rest` is what is left to run, `loop` what is run again by NEXT; `depth` counts the conditions that were
      true and are not closed, up to 32. */
  datatype Machine = Machine(
    rest: seq<Line>, offset: u32, datareg: u32, cond: bool, depth: nat,
    loop: seq<Line>, loopcount: u32, loopcond: bool, loopdepth: nat, c5count: u32, mem: Memory)
  {
    ghost predicate Valid() {
      && |rest| <= |loop| && depth <= 32 && loopdepth <= 32
      && (forall l <- rest :: |l.payload| == PayloadWords(l.a, l.b))
      && (forall l <- loop :: |l.payload| == PayloadWords(l.a, l.b))
    }
  }

  datatype Outcome = Continue(next: Machine) | Stop(mem: Memory)

  // ----- operators on words, bit by bit -----

  function Pow2(n: nat): (p: nat)
    ensures p > 0
  {
    if n == 0 then 1 else 2 * Pow2(n - 1)
  }

  lemma Pow2Values()
    ensures Pow2(16) == 0x1_0000 && Pow2(32) == WORD
  {
    assert Pow2(8) == 0x100 && Pow2(16) == 0x1_0000 && Pow2(24) == 0x100_0000;
  }

  /** The lowest `n` bits of two words, put together one by one. */
  function Bitwise(op: (bool, bool) -> bool, x: nat, y: nat, n: nat): (r: nat)
    ensures r < Pow2(n)
    decreases n
  {
    if n == 0 then 0
    else 2 * Bitwise(op, x / 2, y / 2, n - 1) + if op(x % 2 == 1, y % 2 == 1) then 1 else 0
  }

  predicate Both(p: bool, q: bool) { p && q }
  predicate Either(p: bool, q: bool) { p || q }
  predicate Differ(p: bool, q: bool) { p != q }

  function And(x: u32, y: u32): u32 {
    Pow2Values();
    Bitwise(Both, x, y, 32)
  }

  function Or(x: u32, y: u32): u32 {
    Pow2Values();
    Bitwise(Either, x, y, 32)
  }

  function Xor(x: u32, y: u32): u32 {
    Pow2Values();
    Bitwise(Differ, x, y, 32)
  }

  function ShiftLeft(x: u32, n: nat): u32
    decreases n
  {
    if n == 0 then x else ShiftLeft(2 * x % WORD, n - 1)
  }

  function ShiftRight(x: u32, n: nat): u32
    decreases n
  {
    if n == 0 then x else ShiftRight(x / 2, n - 1)
  }

  /** The sign bit stays. */
  function ShiftArithmetic(x: u32, n: nat): u32
    decreases n
  {
    if n == 0 then x else ShiftArithmetic(x / 2 + if x >= HALF then HALF else 0, n - 1)
  }

  /** The bits that leave at the bottom come back at the top. */
  function Rotate(x: u32, n: nat): u32
    decreases n
  {
    if n == 0 then x else Rotate(x / 2 + if x % 2 == 1 then HALF else 0, n - 1)
  }

  /** Whether the opcode runs even while the condition is false. */
  predicate RunsAlways(op: u32) { op == 0xC5 || op == 0xD0 || op == 0xD1 || op == 0xD2 }

  /** The IF opcodes 0x30 to 0xAF. */
  predicate Holds(m: Memory, offset: u32, a: u32, b: u32) {
    var kind := Op(a) / 16;
    var low := a % 0x10000000;
    var addr := if low == 0 then offset else low;
    if kind <= 6 then
      var chk := Read32(m, addr);
      if kind == 3 then b > chk else if kind == 4 then b < chk else if kind == 5 then b == chk else b != chk
    else
      var chk := And(0xFFFF - b / 0x10000, Read16(m, addr));
      var low16 := b % 0x10000;
      if kind == 7 then low16 > chk else if kind == 8 then low16 < chk else if kind == 9 then low16 == chk else low16 != chk
  }

  function DataOp(datareg: u32, a: u32, b: u32): u32 {
    var n := b % 256;
    match a % 256
    case 0 => Add(datareg, b)
    case 1 => Or(datareg, b)
    case 2 => And(datareg, b)
    case 3 => Xor(datareg, b)
    case 4 => if n > 31 then 0 else ShiftLeft(datareg, n)
    case 5 => if n > 31 then 0 else ShiftRight(datareg, n)
    case 6 => Rotate(datareg, b % 32)
    case 7 => ShiftArithmetic(datareg, if n > 31 then 31 else n)
    case 8 => datareg * b % WORD
    case _ => datareg
  }

  function Min(x: nat, y: nat): nat { if x < y then x else y }

  /** An IF that runs: the conditions around it were true, one more is open. */
  function Opened(s: Machine, holds: bool): Machine {
    s.(cond := holds, depth := Min(s.depth + 1, 32))
  }

  function Looped(s: Machine): Machine
    requires s.loopcount > 0
  {
    s.(rest := s.loop, loopcount := s.loopcount - 1)
  }

  /** The opcodes that run always. */
  function Control(s: Machine, op: u32, b: u32): (t: Machine)
    requires RunsAlways(op) && s.Valid()
    ensures t.Valid() && t.loop == s.loop
    ensures t.loopcount == s.loopcount - 1 || (t.loopcount == s.loopcount && t.rest == s.rest)
  {
    if op == 0xC5 then
      var t := s.(c5count := Add(s.c5count, 1));
      if s.cond then Opened(t, And(t.c5count, b % 0x10000) == b / 0x10000) else t
    else if op == 0xD0 then s.(cond := s.depth > 0, depth := if s.depth > 0 then s.depth - 1 else 0)
    else if s.loopcount > 0 then Looped(s)
    else if op == 0xD1 then s.(cond := s.loopcond, depth := s.loopdepth)
    else s.(offset := 0, datareg := 0, depth := 0, cond := true)
  }

  /** The opcodes below 0xD0 that run only while the condition holds. `s.rest` is what follows the line. */
  function Low(s: Machine, l: Line): (o: Outcome)
    requires Op(l.a) < 0xD0 && !RunsAlways(Op(l.a)) && s.Valid()
    ensures o.Continue? ==> o.next.Valid() && o.next.rest == s.rest
    ensures o.Continue? ==> o.next.loop == s.rest || (o.next.loop == s.loop && o.next.loopcount == s.loopcount)
  {
    var op, low, b := Op(l.a), l.a % 0x10000000, l.b;
    if op < 0x10 then Continue(s.(mem := Write32(s.mem, Add(low, s.offset), b)))
    else if op < 0x20 then Continue(s.(mem := Write16(s.mem, Add(low, s.offset), b % 0x10000)))
    else if op < 0x30 then Continue(s.(mem := Write8(s.mem, Add(low, s.offset), b % 256)))
    else if op < 0xB0 then Continue(Opened(s, Holds(s.mem, s.offset, l.a, b)))
    else if op < 0xC0 then Continue(s.(offset := Read32(s.mem, Add(low, s.offset))))
    else if op == 0xC0 then Continue(s.(loop := s.rest, loopcount := b, loopcond := s.cond, loopdepth := s.depth))
    else if op == 0xC6 then Continue(s.(mem := Write32(s.mem, b, s.offset)))
    else Stop(s.mem)
  }

  /** The opcodes above 0xD2. */
  function High(s: Machine, l: Line): (o: Outcome)
    requires Op(l.a) > 0xD2 && |l.payload| == PayloadWords(l.a, l.b) && s.Valid()
    ensures o.Continue? ==> o.next.Valid() && o.next.rest == s.rest
    ensures o.Continue? ==> o.next.loop == s.loop && o.next.loopcount == s.loopcount
  {
    var op, low, b := Op(l.a), l.a % 0x10000000, l.b;
    var at := Add(b, s.offset);
    if op == 0xD3 then Continue(s.(offset := b))
    else if op == 0xD4 then Continue(s.(datareg := DataOp(s.datareg, l.a, b)))
    else if op == 0xD5 then Continue(s.(datareg := b))
    else if op == 0xD6 then Continue(s.(mem := Write32(s.mem, at, s.datareg), offset := Add(s.offset, 4)))
    else if op == 0xD7 then Continue(s.(mem := Write16(s.mem, at, s.datareg % 0x10000), offset := Add(s.offset, 2)))
    else if op == 0xD8 then Continue(s.(mem := Write8(s.mem, at, s.datareg % 256), offset := Add(s.offset, 1)))
    else if op == 0xD9 then Continue(s.(datareg := Read32(s.mem, at)))
    else if op == 0xDA then Continue(s.(datareg := Read16(s.mem, at)))
    else if op == 0xDB then Continue(s.(datareg := Read8(s.mem, at)))
    else if op == 0xDC then Continue(s.(offset := at))
    else if op < 0xE0 then Stop(s.mem)
    else if op < 0xF0 then Continue(s.(mem := Pasted(s.mem, Add(low, s.offset), l.payload, b)))
    else Continue(s.(mem := Copied(s.mem, s.offset, low, b)))
  }

  function Step(s: Machine): (o: Outcome)
    requires s.Valid() && s.rest != []
    ensures o.Continue? ==> o.next.Valid()
    ensures o.Continue? ==>
              |o.next.loop| < |s.loop|
              || (|o.next.loop| == |s.loop| && o.next.loopcount < s.loopcount)
              || (|o.next.loop| == |s.loop| && o.next.loopcount == s.loopcount && |o.next.rest| < |s.rest|)
  {
    var l, t := s.rest[0], s.(rest := s.rest[1..]);
    var op := Op(l.a);
    assert t.Valid();
    if RunsAlways(op) then Continue(Control(t, op, l.b))
    else if !s.cond then Continue(t)
    else if op < 0xD0 then Low(t, l)
    else High(t, l)
  }

  /** The memory a cheat leaves behind. Every run ends. */
  function Run(s: Machine): Memory
    requires s.Valid()
    decreases |s.loop|, s.loopcount, |s.rest|
  {
    if s.rest == [] then s.mem
    else match Step(s)
      case Stop(m) => m
      case Continue(t) => Run(t)
  }

  // ----- the packed condition stack -----

  /** `k` one bits. */
  function Pack(k: nat): nat { if k == 0 then 0 else 2 * Pack(k - 1) + 1 }

  /** How many bits are one. */
  function Depth(w: nat): nat { if w == 0 then 0 else w % 2 + Depth(w / 2) }

  predicate Packed(w: u32) { Depth(w) <= 32 && w == Pack(Depth(w)) }

  lemma {:induction false} PackBounds(k: nat)
    requires k <= 32
    ensures Depth(Pack(k)) == k
    ensures if k == 32 then Pack(k) == 0xFFFFFFFF else Pack(k) <= 0x7FFFFFFF
  {
    hide Pack, Depth;
    PackValues();
    if k == 0 {
      PackNothing();
    } else {
      PackBounds(k - 1);
      PackNext(k - 1);
      DepthNext(Pack(k - 1));
      if k < 31 {
        PackGrows(k, 31);
      }
    }
  }

  lemma PackValues()
    ensures Pack(31) == 0x7FFFFFFF && Pack(32) == 0xFFFFFFFF
  {
    assert Pack(8) == 0xFF && Pack(16) == 0xFFFF && Pack(24) == 0xFFFFFF;
  }

  lemma DepthNext(w: nat)
    ensures Depth(2 * w + 1) == Depth(w) + 1
  {
    var v := 2 * w + 1;
    assert v / 2 == w && v % 2 == 1;
    assert Depth(v) == v % 2 + Depth(v / 2);
  }

  lemma {:induction false} PackGrows(j: nat, k: nat)
    requires j <= k
    ensures Pack(j) <= Pack(k)
  {
    if j < k {
      PackGrows(j, k - 1);
    }
  }

  /** Shifting a one in counts one up, and stays at 32. */
  lemma PushOne(w: u32)
    requires Packed(w)
    ensures w * 2 % WORD + 1 < WORD
    ensures Packed(w * 2 % WORD + 1) && Depth(w * 2 % WORD + 1) == Min(Depth(w) + 1, 32)
  {
    hide Pack, Depth;
    var k := Depth(w);
    PackBounds(k);
    if k < 32 {
      PackBounds(k + 1);
      assert Pack(k + 1) == 2 * w + 1 by { PackNext(k); }
    }
  }

  lemma PackNext(k: nat)
    ensures Pack(k + 1) == 2 * Pack(k) + 1
  {
  }

  /** Shifting out counts one down, and the bit says whether there was one. */
  lemma PopOne(w: u32)
    requires Packed(w)
    ensures w % 2 == if Depth(w) > 0 then 1 else 0
    ensures Packed(w / 2) && Depth(w / 2) == if Depth(w) > 0 then Depth(w) - 1 else 0
  {
    hide Pack, Depth;
    var k := Depth(w);
    PackNothing();
    if k > 0 {
      PackBounds(k - 1);
      PackNext(k - 1);
    }
  }

  lemma PackNothing()
    ensures Pack(0) == 0 && Depth(0) == 0
  {
  }

  // ----- the interpreter -----

  /** Its local variables, and the memory it writes. */
  datatype Locals = Locals(
    pos: nat, offset: u32, datareg: u32, cond: nat, condstack: u32,
    loopstart: nat, loopcount: u32, loopcond: nat, loopcondstack: u32, c5count: u32, mem: Memory)

  /** The condition bits are zero or one, both stacks are blocks of ones, and the positions are starts of lines. */
  ghost predicate Ok(code: seq<u32>, v: Locals) {
    && v.loopstart <= v.pos <= |code| && WellFormed(code, v.pos) && WellFormed(code, v.loopstart)
    && |Lines(code, v.pos)| <= |Lines(code, v.loopstart)|
    && v.cond <= 1 && v.loopcond <= 1 && Packed(v.condstack) && Packed(v.loopcondstack)
  }

  ghost function Abs(code: seq<u32>, v: Locals): (s: Machine)
    requires Ok(code, v)
    ensures s.Valid()
  {
    LinesAreWhole(code, v.pos);
    LinesAreWhole(code, v.loopstart);
    Machine(Lines(code, v.pos), v.offset, v.datareg, v.cond == 1, Depth(v.condstack),
            Lines(code, v.loopstart), v.loopcount, v.loopcond == 1, Depth(v.loopcondstack), v.c5count, v.mem)
  }

  lemma {:induction false} LinesAreWhole(code: seq<u32>, pos: nat)
    requires pos <= |code| && WellFormed(code, pos)
    ensures forall l <- Lines(code, pos) :: |l.payload| == PayloadWords(l.a, l.b)
    decreases |code| - pos
  {
    if pos < |code| {
      LinesAreWhole(code, pos + 2 + PayloadWords(code[pos], code[pos + 1]));
    }
  }

  function Start(code: seq<u32>, mem: Memory): (s: Machine)
    requires WellFormed(code, 0)
    ensures s.Valid()
  {
    LinesAreWhole(code, 0);
    var lines := Lines(code, 0);
    Machine(lines, 0, 0, true, 0, lines, 0, true, 0, 0, mem)
  }

  /** Writes `b` bytes of the words at `pos`; two words at a time, then the leftover. */
  method Paste(code: seq<u32>, start: nat, dst: u32, b: u32, before: Memory) returns (mem: Memory, pos: nat)
    requires start + (b + 7) / 8 * 2 <= |code|
    ensures pos == start + (b + 7) / 8 * 2
    ensures mem == Pasted(before, dst, code[start..pos], b)
  {
    hide Write32, Write8, Add, ByteOf;
    pos := start;
    mem := before;
    var dstaddr, bytesleft := dst, b;
    ghost var end := start + (b + 7) / 8 * 2;
    while bytesleft >= 8
      invariant 0 <= bytesleft <= b && start <= pos && pos + (bytesleft + 7) / 8 * 2 == end
      invariant Pasted(mem, dstaddr, code[pos..end], bytesleft) == Pasted(before, dst, code[start..end], b)
    {
      PasteTwo(mem, dstaddr, code[pos..end], bytesleft);
      assert code[pos..end][2..] == code[pos + 2..end];
      mem := Write32(mem, dstaddr, code[pos]);
      dstaddr := Add(dstaddr, 4);
      mem := Write32(mem, dstaddr, code[pos + 1]);
      dstaddr := Add(dstaddr, 4);
      pos := pos + 2;
      bytesleft := bytesleft - 8;
    }
    if bytesleft > 0 {
      var leftover := pos;
      pos := pos + 2;
      if bytesleft >= 4 {
        assert code[leftover..end][1..] == code[leftover + 1..end];
        mem := Write32(mem, dstaddr, code[leftover]);
        dstaddr := Add(dstaddr, 4);
        leftover := leftover + 1;
        bytesleft := bytesleft - 4;
      }
      var k := 0;
      while k < bytesleft
        invariant 0 <= k <= bytesleft < 4 && leftover < |code|
        invariant PastedBytes(mem, dstaddr, code[leftover], k, bytesleft) == Pasted(before, dst, code[start..end], b)
      {
        mem := Write8(mem, dstaddr, ByteOf(code[leftover], k));
        dstaddr := Add(dstaddr, 1);
        k := k + 1;
      }
    }
  }

  lemma PasteTwo(m: Memory, dst: u32, payload: seq<u32>, n: nat)
    requires 8 <= n <= 4 * |payload|
    ensures Pasted(m, dst, payload, n) ==
            Pasted(Write32(Write32(m, dst, payload[0]), Add(dst, 4), payload[1]), Add(Add(dst, 4), 4), payload[2..], n - 8)
  {
    hide Write32, Add;
    assert payload[1..][1..] == payload[2..];
  }

  method CopyBytes(src: u32, dst: u32, b: u32, before: Memory) returns (mem: Memory)
    ensures mem == Copied(before, src, dst, b)
  {
    hide Write32, Write8, Read32, Read8, Add;
    mem := before;
    var srcaddr, dstaddr, bytesleft := src, dst, b;
    while bytesleft >= 4
      invariant 0 <= bytesleft <= b
      invariant Copied(mem, srcaddr, dstaddr, bytesleft) == Copied(before, src, dst, b)
    {
      mem := Write32(mem, dstaddr, Read32(mem, srcaddr));
      srcaddr := Add(srcaddr, 4);
      dstaddr := Add(dstaddr, 4);
      bytesleft := bytesleft - 4;
    }
    while bytesleft > 0
      invariant 0 <= bytesleft < 4
      invariant Copied(mem, srcaddr, dstaddr, bytesleft) == Copied(before, src, dst, b)
    {
      mem := Write8(mem, dstaddr, Read8(mem, srcaddr));
      srcaddr := Add(srcaddr, 1);
      dstaddr := Add(dstaddr, 1);
      bytesleft := bytesleft - 1;
    }
  }

  /** Steps over the payload of a line that does not run. */
  method SkipPayload(size: nat, start: nat, b: u32) returns (pos: nat)
    requires 2 <= start && start + (b + 7) / 8 * 2 <= size <= 0x4000_0000
    ensures pos == start + (b + 7) / 8 * 2
  {
    pos := start;
    var i: u32 := 0;
    while i < b
      invariant i % 8 == 0 && i <= (b + 7) / 8 * 8 && pos == start + i / 8 * 2
      decreases b - i
    {
      i := Add(i, 8);
      pos := pos + 2;
    }
  }

  method PushCond(v: Locals, holds: bool) returns (w: Locals)
    requires v.cond == 1 && Packed(v.condstack)
    ensures Packed(w.condstack) && Depth(w.condstack) == Min(Depth(v.condstack) + 1, 32)
    ensures w == v.(condstack := w.condstack, cond := if holds then 1 else 0)
  {
    hide Packed, Depth, Pack;
    PushOne(v.condstack);
    // the low bit is free after the shift, so the OR is a sum
    w := v.(condstack := v.condstack * 2 % WORD + v.cond);
    w := w.(cond := if holds then 1 else 0);
  }

  method ControlOp(code: seq<u32>, v: Locals, op: u32, b: u32) returns (w: Locals)
    requires RunsAlways(op) && Ok(code, v)
    ensures Ok(code, w) && Abs(code, w) == Control(Abs(code, v), op, b)
    ensures w.loopstart == v.loopstart
    ensures w.loopcount == v.loopcount - 1 || (w.loopcount == v.loopcount && w.pos == v.pos)
  {
    hide WellFormed, Lines, Packed, Depth, And;
    w := v;
    match op
    case 0xC5 =>
      w := w.(c5count := Add(w.c5count, 1));
      if w.cond != 0 {
        w := PushCond(w, And(w.c5count, b % 0x10000) == b / 0x10000);
      }
    case 0xD0 =>
      PopOne(w.condstack);
      w := w.(cond := w.condstack % 2, condstack := w.condstack / 2);
    case _ =>
      if w.loopcount > 0 {
        w := w.(loopcount := w.loopcount - 1, pos := w.loopstart);
      } else if op == 0xD1 {
        w := w.(cond := w.loopcond, condstack := w.loopcondstack);
      } else {
        PackedNothing();
        w := w.(offset := 0, datareg := 0, condstack := 0, cond := 1);
      }
  }

  lemma PackedNothing()
    ensures Packed(0) && Depth(0) == 0
  {
  }

  method LowOp(code: seq<u32>, v: Locals, a: u32, b: u32, ghost payload: seq<u32>) returns (w: Locals, go: bool)
    requires Op(a) < 0xD0 && !RunsAlways(Op(a)) && Ok(code, v) && v.cond == 1
    ensures go ==> Ok(code, w) && Low(Abs(code, v), Line(a, b, payload)) == Continue(Abs(code, w))
    ensures !go ==> Low(Abs(code, v), Line(a, b, payload)) == Stop(w.mem)
    ensures go ==> w.pos == v.pos && (w.loopstart == v.pos || (w.loopstart == v.loopstart && w.loopcount == v.loopcount))
  {
    hide WellFormed, Lines, Packed, Depth, Add, Holds, Read32, Write32, Write16, Write8;
    w, go := v, true;
    var op, low := Op(a), a % 0x10000000;
    if op < 0x10 {
      w := w.(mem := Write32(w.mem, Add(low, w.offset), b));
    } else if op < 0x20 {
      w := w.(mem := Write16(w.mem, Add(low, w.offset), b % 0x10000));
    } else if op < 0x30 {
      w := w.(mem := Write8(w.mem, Add(low, w.offset), b % 256));
    } else if op < 0xB0 {
      w := PushCond(w, Holds(w.mem, w.offset, a, b));
    } else if op < 0xC0 {
      w := w.(offset := Read32(w.mem, Add(low, w.offset)));
    } else if op == 0xC0 {
      w := w.(loopstart := w.pos, loopcount := b, loopcond := w.cond, loopcondstack := w.condstack);
    } else if op == 0xC6 {
      w := w.(mem := Write32(w.mem, b, w.offset));
    } else {
      go := false;
    }
  }

  /** The opcodes above 0xD2 that have no payload. */
  method HighOp(code: seq<u32>, v: Locals, a: u32, b: u32) returns (w: Locals, go: bool)
    requires Op(a) > 0xD2 && Op(a) / 16 != 0xE && Ok(code, v)
    ensures go ==> Ok(code, w) && High(Abs(code, v), Line(a, b, [])) == Continue(Abs(code, w))
    ensures !go ==> High(Abs(code, v), Line(a, b, [])) == Stop(w.mem)
    ensures go ==> w.pos == v.pos && w.loopstart == v.loopstart && w.loopcount == v.loopcount
  {
    hide WellFormed, Lines, Packed, Depth, Add, DataOp, Copied, Read32, Read16, Read8, Write32, Write16, Write8;
    w, go := v, true;
    var at := Add(b, w.offset);
    match Op(a)
    case 0xD3 => w := w.(offset := b);
    case 0xD4 => w := w.(datareg := DataOp(w.datareg, a, b));
    case 0xD5 => w := w.(datareg := b);
    case 0xD6 =>
      w := w.(mem := Write32(w.mem, at, w.datareg));
      w := w.(offset := Add(w.offset, 4));
    case 0xD7 =>
      w := w.(mem := Write16(w.mem, at, w.datareg % 0x10000));
      w := w.(offset := Add(w.offset, 2));
    case 0xD8 =>
      w := w.(mem := Write8(w.mem, at, w.datareg % 256));
      w := w.(offset := Add(w.offset, 1));
    case 0xD9 => w := w.(datareg := Read32(w.mem, at));
    case 0xDA => w := w.(datareg := Read16(w.mem, at));
    case 0xDB => w := w.(datareg := Read8(w.mem, at));
    case 0xDC => w := w.(offset := at);
    case _ =>
      if Op(a) < 0xE0 {
        go := false;
      } else {
        var mem := CopyBytes(w.offset, a % 0x10000000, b, w.mem);
        w := w.(mem := mem);
      }
  }

  /** What the code runs next is the first line of the parsed program, and then the rest of it. */
  lemma NextLine(code: seq<u32>, v: Locals)
    requires Ok(code, v) && v.pos < |code|
    ensures v.pos + 2 <= |code|
    ensures var a, b := code[v.pos], code[v.pos + 1];
            var next := v.pos + 2 + PayloadWords(a, b);
            && next <= |code| && Ok(code, v.(pos := next))
            && Abs(code, v).rest != [] && Abs(code, v).rest[0] == Line(a, b, code[v.pos + 2..next])
            && Abs(code, v).rest[1..] == Lines(code, next)
            && Abs(code, v.(pos := next)) == Abs(code, v).(rest := Lines(code, next))
  {
    hide Packed, Depth, PayloadWords, WellFormed, Lines, Machine.Valid;
    LineAt(code, v.pos);
  }

  lemma LineAt(code: seq<u32>, pos: nat)
    requires pos < |code| && WellFormed(code, pos)
    ensures pos + 2 <= |code|
    ensures var next := pos + 2 + PayloadWords(code[pos], code[pos + 1]);
            && next <= |code| && WellFormed(code, next)
            && |Lines(code, pos)| == 1 + |Lines(code, next)|
            && Lines(code, pos)[0] == Line(code[pos], code[pos + 1], code[pos + 2..next])
            && Lines(code, pos)[1..] == Lines(code, next)
  {
    hide PayloadWords;
  }

  /** One turn of the interpreter is one step of the machine; a line that is skipped moves the position as far
      as one that runs. */
  method Execute(code: seq<u32>, v: Locals) returns (w: Locals, go: bool)
    requires |code| <= 0x4000_0000 && Ok(code, v) && v.pos < |code|
    ensures go ==> Ok(code, w) && Step(Abs(code, v)) == Continue(Abs(code, w))
    ensures !go ==> Step(Abs(code, v)) == Stop(w.mem)
    ensures go ==>
              v.loopstart < w.loopstart
              || (w.loopstart == v.loopstart && w.loopcount < v.loopcount)
              || (w.loopstart == v.loopstart && w.loopcount == v.loopcount && v.pos < w.pos)
  {
    hide Ok, WellFormed, Lines, Control, Low, High, Machine.Valid;
    NextLine(code, v);
    OkBounds(code, v);
    ghost var s := Abs(code, v);
    var a, b := code[v.pos], code[v.pos + 1];
    var op, next := Op(a), v.pos + 2;
    ghost var t := Abs(code, v.(pos := next + PayloadWords(a, b)));
    assert t == s.(rest := s.rest[1..]);
    ghost var payload := code[next..next + PayloadWords(a, b)];
    w, go := v.(pos := next), true;
    if !RunsAlways(op) && v.cond == 0 {
      if op / 16 == 0xE {
        next := SkipPayload(|code|, next, b);
      }
      w := v.(pos := next);
    } else if RunsAlways(op) {
      w := ControlOp(code, w, op, b);
    } else if op < 0xD0 {
      w, go := LowOp(code, w, a, b, payload);
    } else if op / 16 == 0xE {
      var mem;
      mem, next := Paste(code, next, Add(a % 0x10000000, v.offset), b, v.mem);
      w := v.(pos := next, mem := mem);
      PastedLine(code, v, next, mem);
      PasteStep(t, Line(a, b, payload));
    } else {
      assert payload == [];
      w, go := HighOp(code, w, a, b);
    }
  }

  lemma OkBounds(code: seq<u32>, v: Locals)
    requires Ok(code, v)
    ensures v.loopstart <= v.pos <= |code| && v.cond <= 1
  {
  }

  lemma PasteStep(s: Machine, l: Line)
    requires Op(l.a) / 16 == 0xE && |l.payload| == PayloadWords(l.a, l.b) && s.Valid()
    ensures High(s, l) == Continue(s.(mem := Pasted(s.mem, Add(l.a % 0x10000000, s.offset), l.payload, l.b)))
  {
  }

  lemma PastedLine(code: seq<u32>, v: Locals, next: nat, mem: Memory)
    requires Ok(code, v.(pos := next)) && next <= |code|
    ensures Ok(code, v.(pos := next, mem := mem))
    ensures Abs(code, v.(pos := next, mem := mem)) == Abs(code, v.(pos := next)).(mem := mem)
  {
  }

  /** Runs every cheat of whole lines to its end and leaves the memory the reference machine leaves. The first
      loop start that a FOR sets is further into the code than the last; until the next FOR a NEXT uses up
      the count; between two of them the position advances. */
  method RunCheat(code: seq<u32>, before: Memory) returns (mem: Memory)
    requires |code| <= 0x4000_0000 && WellFormed(code, 0)
    ensures mem == Run(Start(code, before))
  {
    hide WellFormed, Lines, Step, Run, Machine.Valid;
    StartIsValid(code, before);
    var v := Locals(0, 0, 0, 1, 0, 0, 0, 1, 0, 0, before);
    var go := true;
    while v.pos < |code|
      invariant Ok(code, v) && Run(Abs(code, v)) == Run(Start(code, before))
      decreases |code| - v.loopstart, v.loopcount, |code| - v.pos
    {
      NextLine(code, v);
      RunStep(Abs(code, v));
      v, go := Execute(code, v);
      if !go { return v.mem; }
    }
    AtEnd(code, v);
    mem := v.mem;
  }

  lemma StartIsValid(code: seq<u32>, mem: Memory)
    requires WellFormed(code, 0)
    ensures var v := Locals(0, 0, 0, 1, 0, 0, 0, 1, 0, 0, mem);
            Ok(code, v) && Abs(code, v) == Start(code, mem)
  {
    hide WellFormed, Lines;
    LinesAreWhole(code, 0);
    PackedNothing();
  }

  lemma RunStep(s: Machine)
    requires s.Valid() && s.rest != []
    ensures Run(s) == match Step(s) case Stop(m) => m case Continue(t) => Run(t)
  {
  }

  lemma AtEnd(code: seq<u32>, v: Locals)
    requires Ok(code, v) && v.pos == |code|
    ensures Run(Abs(code, v)) == v.mem
  {
  }
}
