/**
  What the opcodes of the Action Replay machine do, in numbers: the operators on words, reading and writing memory, and
  short cheats around every IF, the data opcodes and the opcodes that run under a false condition.
*/
module CheatLaws {
  import opened CheatEngine

  // ----- operators on words -----

  predicate Bit(x: nat, k: nat)
    decreases k
  {
    if k == 0 then x % 2 == 1 else Bit(x / 2, k - 1)
  }

  lemma {:induction false} BitwiseBit(op: (bool, bool) -> bool, x: nat, y: nat, n: nat, k: nat)
    requires k < n
    ensures Bit(Bitwise(op, x, y, n), k) == op(Bit(x, k), Bit(y, k))
    decreases k
  {
    if k > 0 {
      BitwiseBit(op, x / 2, y / 2, n - 1, k - 1);
      assert Bitwise(op, x, y, n) / 2 == Bitwise(op, x / 2, y / 2, n - 1);
    }
  }

  /** AND, OR and XOR on each bit. */
  lemma LogicOnBits(x: u32, y: u32, k: nat)
    requires k < 32
    ensures Bit(And(x, y), k) == (Bit(x, k) && Bit(y, k))
    ensures Bit(Or(x, y), k) == (Bit(x, k) || Bit(y, k))
    ensures Bit(Xor(x, y), k) == (Bit(x, k) != Bit(y, k))
  {
    hide Bitwise, Bit;
    BitwiseBit(Both, x, y, 32, k);
    BitwiseBit(Either, x, y, 32, k);
    BitwiseBit(Differ, x, y, 32, k);
  }

  /** The bits of `v` that `h` does not have. */
  function Without(v: nat, h: nat): nat {
    if v == 0 then 0 else 2 * Without(v / 2, h / 2) + if v % 2 == 1 && h % 2 == 0 then 1 else 0
  }

  lemma {:induction false} AndNothing(x: nat, n: nat)
    ensures Bitwise(Both, x, 0, n) == 0
    decreases n
  {
    if n > 0 { AndNothing(x / 2, n - 1); }
  }

  lemma {:induction false} AndComplement(h: nat, v: nat, n: nat, width: nat)
    requires n <= width && h < Pow2(n) && v < Pow2(n)
    ensures Bitwise(Both, Pow2(n) - 1 - h, v, width) == Without(v, h)
    decreases n
  {
    if n == 0 {
      AndNothing(0, width);
    } else {
      AndComplement(h / 2, v / 2, n - 1, width - 1);
      assert (Pow2(n) - 1 - h) / 2 == Pow2(n - 1) - 1 - h / 2;
    }
  }

  /** The mask of the 16-bit IFs: the bits of the halfword that the high half of `b` does not have. */
  lemma MaskedHalfword(b: u32, v: u32)
    requires v < 0x10000
    ensures And(0xFFFF - b / 0x10000, v) == Without(v, b / 0x10000)
  {
    hide Bitwise, Without;
    Pow2Values();
    AndComplement(b / 0x10000, v, 16, 32);
  }

  function Signed(x: u32): int { if x < HALF then x else x - WORD }

  lemma DivDiv(x: int, p: nat)
    requires p > 0
    ensures x / 2 / p == x / (2 * p)
  {
    var q := x / (2 * p);
    var r := x - q * (2 * p);
    assert 0 <= r < 2 * p;
    assert x == 2 * (q * p) + r;
    assert x / 2 == q * p + r / 2;
    assert 0 <= r / 2 < p;
    Quotient(q, p, r / 2);
  }

  lemma Quotient(q: int, p: nat, r: nat)
    requires r < p
    ensures (q * p + r) / p == q && (q * p + r) % p == r
  {
    var x := q * p + r;
    var d := x / p - q;
    assert x == (x / p) * p + x % p;
    assert d * p == r - x % p;
    Multiple(d, p);
  }

  lemma Multiple(d: int, p: nat)
    ensures d >= 1 ==> d * p >= p
    ensures d <= -1 ==> d * p <= 0 - p
  {
    TimesGrows(1, d, p);
    TimesGrows(d, -1, p);
  }

  lemma TimesGrows(x: int, y: int, p: nat)
    ensures x <= y ==> x * p <= y * p
  {
  }

  lemma ModTimes(x: nat, p: nat)
    ensures x % WORD * p % WORD == x * p % WORD
  {
    var q := x / WORD;
    assert x == WORD * q + x % WORD;
    assert x * p == WORD * (q * p) + x % WORD * p;
    ModShift(q * p, x % WORD * p);
  }

  lemma ModShift(q: int, x: int)
    ensures (WORD * q + x) % WORD == x % WORD
  {
  }

  /** Shifting left multiplies, and drops what does not fit. */
  lemma {:induction false} ShiftLeftIs(x: u32, n: nat)
    ensures ShiftLeft(x, n) == x * Pow2(n) % WORD
    decreases n
  {
    if n > 0 {
      ShiftLeftIs(2 * x % WORD, n - 1);
      ModTimes(2 * x, Pow2(n - 1));
      assert 2 * x * Pow2(n - 1) == x * Pow2(n);
    }
  }

  /** Shifting right divides. */
  lemma {:induction false} ShiftRightIs(x: u32, n: nat)
    ensures ShiftRight(x, n) == x / Pow2(n)
    decreases n
  {
    if n > 0 {
      ShiftRightIs(x / 2, n - 1);
      DivDiv(x, Pow2(n - 1));
    }
  }

  /** The arithmetic shift divides the signed number, rounding down. */
  lemma {:induction false} ShiftArithmeticIs(x: u32, n: nat)
    ensures Signed(ShiftArithmetic(x, n)) == Signed(x) / Pow2(n)
    decreases n
  {
    if n > 0 {
      var y := x / 2 + if x >= HALF then HALF else 0;
      ShiftArithmeticIs(y, n - 1);
      assert Signed(y) == Signed(x) / 2;
      DivDiv(Signed(x), Pow2(n - 1));
    }
  }

  lemma {:induction false} Pow2Sum(m: nat, n: nat)
    ensures Pow2(m) * Pow2(n) == Pow2(m + n)
    decreases m
  {
    if m > 0 {
      Pow2Sum(m - 1, n);
      assert 2 * Pow2(m - 1) * Pow2(n) == 2 * (Pow2(m - 1) * Pow2(n));
    }
  }

  lemma Below(hi: nat, lo: nat, m: nat, n: nat)
    requires hi < Pow2(m) && lo < Pow2(n) && m + n == 32
    ensures hi * Pow2(n) + lo < WORD
  {
    hide Pow2;
    Pow2Sum(m, n);
    Pow2Values();
    TimesGrows(hi + 1, Pow2(m), Pow2(n));
    assert (hi + 1) * Pow2(n) == hi * Pow2(n) + Pow2(n);
  }

  /** Rotating right by `n` exchanges the upper 32 - n bits and the lower n bits. */
  lemma {:induction false} RotateExchanges(hi: nat, lo: nat, n: nat)
    requires n <= 32 && hi < Pow2(32 - n) && lo < Pow2(n)
    ensures hi * Pow2(n) + lo < WORD && lo * Pow2(32 - n) + hi < WORD
    ensures Rotate(hi * Pow2(n) + lo, n) == lo * Pow2(32 - n) + hi
    decreases n
  {
    hide Pow2, Rotate;
    Below(hi, lo, 32 - n, n);
    Below(lo, hi, n, 32 - n);
    var x: u32 := hi * Pow2(n) + lo;
    RotateStep(x, n);
    Pow2Step(n);
    if n > 0 {
      var l, b := lo / 2, lo % 2;
      var p, q := Pow2(n - 1), Pow2(32 - n);
      Pow2Sum(32 - n, n - 1);
      Pow2Step(33 - n);
      Pow2Step(32);
      Pow2Values();
      RotateAlgebra(hi, l, b, p, q, x);
      RotateExchanges(hi + b * q, l, n - 1);
    }
  }

  lemma RotateStep(x: u32, n: nat)
    ensures Rotate(x, n) == if n == 0 then x else Rotate(x / 2 + if x % 2 == 1 then HALF else 0, n - 1)
  {
  }

  lemma Pow2Step(n: nat)
    ensures Pow2(n) == if n == 0 then 1 else 2 * Pow2(n - 1)
  {
  }

  lemma RotateAlgebra(hi: nat, l: nat, b: nat, p: nat, q: nat, x: nat)
    requires q * p == HALF && b < 2 && hi < q && x == hi * (2 * p) + (2 * l + b)
    ensures x / 2 + (if x % 2 == 1 then HALF else 0) == (hi + b * q) * p + l
    ensures l * (2 * q) + (hi + b * q) == (2 * l + b) * q + hi && hi + b * q < 2 * q
  {
    assert x == 2 * (hi * p + l) + b;
    assert (hi + b * q) * p == hi * p + b * (q * p);
  }

  lemma DivisionIs(x: nat, p: nat)
    requires p > 0
    ensures x / p >= 0 && x == x / p * p + x % p && x % p < p
  {
  }

  lemma SplitAt(x: u32, n: nat)
    requires n <= 32
    ensures x == x / Pow2(n) * Pow2(n) + x % Pow2(n) && 0 <= x / Pow2(n) < Pow2(32 - n) && x % Pow2(n) < Pow2(n)
  {
    hide Pow2;
    DivisionIs(x, Pow2(n));
    Pow2Sum(32 - n, n);
    Pow2Values();
    TimesGrows(Pow2(32 - n), x / Pow2(n), Pow2(n));
  }

  /** So rotating on by 32 - n gives the word back. */
  lemma RotateBack(x: u32, n: nat)
    requires n <= 32
    ensures Rotate(Rotate(x, n), 32 - n) == x
  {
    hide Rotate, Pow2;
    var hi, lo := x / Pow2(n), x % Pow2(n);
    SplitAt(x, n);
    RotateExchanges(hi, lo, n);
    RotateExchanges(lo, hi, 32 - n);
  }

  // ----- memory -----

  /** Words and halfwords are stored lowest byte first, at multiples of four and two. */
  lemma ReadIsBytes(m: Memory, addr: u32)
    ensures Read16(m, addr) == Read8(m, addr / 2 * 2) + 256 * Read8(m, addr / 2 * 2 + 1)
    ensures Read32(m, addr) == Read16(m, addr / 4 * 4) + 65536 * Read16(m, addr / 4 * 4 + 2)
  {
  }

  lemma Store8(m: Memory, addr: u32, v: u32, other: u32)
    ensures Read8(Write8(m, addr, v), other) == if other == addr then v % 256 else Read8(m, other)
  {
  }

  lemma Store16(m: Memory, addr: u32, v: u32, other: u32)
    ensures Read16(Write16(m, addr, v), other) == if other / 2 == addr / 2 then v % 65536 else Read16(m, other)
  {
    var at, to := addr - addr % 2, other - other % 2;
    if other / 2 == addr / 2 {
      assert to == at;
      assert v % 256 + 256 * (v / 256 % 256) == v % 65536;
    } else {
      assert to + 1 < at || at + 1 < to;
    }
  }

  lemma Store32(m: Memory, addr: u32, v: u32, other: u32)
    ensures Read32(Write32(m, addr, v), other) == if other / 4 == addr / 4 then v else Read32(m, other)
  {
    var at, to := addr - addr % 4, other - other % 4;
    if other / 4 == addr / 4 {
      assert to == at;
      FourBytes(v);
    } else {
      assert to + 3 < at || at + 3 < to;
    }
  }

  lemma FourBytes(v: u32)
    ensures ByteOf(v, 0) + 0x100 * ByteOf(v, 1) + 0x10000 * ByteOf(v, 2) + 0x1000000 * ByteOf(v, 3) == v
  {
    var a, b, c := v / 0x100, v / 0x10000, v / 0x1000000;
    assert a / 0x100 == b && b / 0x100 == c;
  }

  // ----- short cheats -----

  const ENDIF := Line(0xD0000000, 0, [])

  /** What the IF opcodes 0x3 to 0xA compare `b` with: a word, or a halfword without the bits in the high half of
      `b`, at the address or, for address 0, at the offset. */
  predicate Compares(kind: nat, b: u32, m: Memory, at: u32) {
    match kind
    case 3 => b > Read32(m, at)
    case 4 => b < Read32(m, at)
    case 5 => b == Read32(m, at)
    case 6 => b != Read32(m, at)
    case 7 => b % 65536 > Without(Read16(m, at), b / 65536)
    case 8 => b % 65536 < Without(Read16(m, at), b / 65536)
    case 9 => b % 65536 == Without(Read16(m, at), b / 65536)
    case _ => b % 65536 != Without(Read16(m, at), b / 65536)
  }

  /** IF, store, ENDIF: the word is stored exactly if the comparison holds. */
  lemma IfStores(s: Machine, kind: nat, addr: u32, b: u32, to: u32, v: u32)
    requires s.Valid() && s.cond && 3 <= kind <= 10 && addr < 0x10000000 && to < 0x10000000
    requires s.rest == [Line(kind * 0x10000000 + addr, b, []), Line(to, v, []), ENDIF]
    ensures Run(s) ==
            if Compares(kind, b, s.mem, if addr == 0 then s.offset else addr)
            then Write32(s.mem, (to + s.offset) % 0x1_0000_0000, v) else s.mem
  {
    hide Read32, Read16, Write32, Without, And, Step, Run, Compares;
    IfStep(s, kind, addr, b);
    var t := Opened(s.(rest := s.rest[1..]), Compares(kind, b, s.mem, if addr == 0 then s.offset else addr));
    assert s.rest[1..] == [Line(to, v, []), ENDIF] && t.rest[1..] == [ENDIF];
    RunStep(s);
    StoreStep(t, to, v);
    RunStep(t);
    RunEndif(Step(t).next);
  }

  lemma RunEndif(s: Machine)
    requires s.Valid() && s.rest == [ENDIF]
    ensures Run(s) == s.mem
  {
    RunStep(s);
    assert s.rest[1..] == [];
  }

  lemma IfStep(s: Machine, kind: nat, addr: u32, b: u32)
    requires s.Valid() && s.cond && 3 <= kind <= 10 && addr < 0x10000000
    requires s.rest != [] && s.rest[0] == Line(kind * 0x10000000 + addr, b, [])
    ensures Step(s) == Continue(Opened(s.(rest := s.rest[1..]), Compares(kind, b, s.mem, if addr == 0 then s.offset else addr)))
  {
    hide Read32, Read16, Without, And;
    var a := s.rest[0].a;
    assert Op(a) / 16 == kind && a % 0x10000000 == addr && kind * 16 <= Op(a) < kind * 16 + 16;
    HalfwordIs(s.mem, if addr == 0 then s.offset else addr);
    MaskedHalfword(b, Read16(s.mem, if addr == 0 then s.offset else addr));
  }

  lemma HalfwordIs(m: Memory, addr: u32)
    ensures Read16(m, addr) < 65536
  {
  }

  /** A word store, under a true condition and under a false one. */
  lemma StoreStep(s: Machine, to: u32, v: u32)
    requires s.Valid() && to < 0x10000000 && s.rest != [] && s.rest[0] == Line(to, v, [])
    ensures Step(s) ==
            if s.cond then Continue(s.(rest := s.rest[1..], mem := Write32(s.mem, (to + s.offset) % 0x1_0000_0000, v)))
            else Continue(s.(rest := s.rest[1..]))
  {
    hide Write32;
    assert Op(to) < 16 && to % 0x10000000 == to;
  }

  /** What the data opcode `k` makes of `x`. */
  ghost predicate DataResult(k: nat, x: u32, b: u32, r: u32) {
    var n := b % 256;
    match k
    case 0 => r == (x + b) % 0x1_0000_0000
    case 1 => forall i :: 0 <= i < 32 ==> Bit(r, i) == (Bit(x, i) || Bit(b, i))
    case 2 => forall i :: 0 <= i < 32 ==> Bit(r, i) == (Bit(x, i) && Bit(b, i))
    case 3 => forall i :: 0 <= i < 32 ==> Bit(r, i) == (Bit(x, i) != Bit(b, i))
    case 4 => r == if n < 32 then x * Pow2(n) % 0x1_0000_0000 else 0
    case 5 => r == if n < 32 then x / Pow2(n) else 0
    case 6 => var m := b % 32; r == x / Pow2(m) + x % Pow2(m) * Pow2(32 - m)
    case 7 => Signed(r) == Signed(x) / Pow2(if n < 32 then n else 31)
    case 8 => r == x * b % 0x1_0000_0000
    case _ => r == x
  }

  lemma DataOpIs(x: u32, a: u32, b: u32)
    ensures DataResult(a % 256, x, b, DataOp(x, a, b))
  {
    hide And, Or, Xor, Rotate, ShiftLeft, ShiftRight, ShiftArithmetic, Bit, Pow2, Signed;
    var n := b % 256;
    forall i | 0 <= i < 32
      ensures Bit(And(x, b), i) == (Bit(x, i) && Bit(b, i)) && Bit(Or(x, b), i) == (Bit(x, i) || Bit(b, i))
      ensures Bit(Xor(x, b), i) == (Bit(x, i) != Bit(b, i))
    {
      LogicOnBits(x, b, i);
    }
    ShiftLeftIs(x, n);
    ShiftRightIs(x, n);
    ShiftArithmeticIs(x, if n < 32 then n else 31);
    RotateIs(x, b % 32);
  }

  lemma RotateIs(x: u32, n: nat)
    requires n <= 32
    ensures Rotate(x, n) == x / Pow2(n) + x % Pow2(n) * Pow2(32 - n)
  {
    hide Rotate, Pow2;
    var hi, lo := x / Pow2(n), x % Pow2(n);
    SplitAt(x, n);
    RotateExchanges(hi, lo, n);
  }

  /** Load a word, run a data opcode, store the result behind it: the word there is the one that the opcode makes. */
  lemma DataCheat(s: Machine, x: u32, a: u32, b: u32, to: u32)
    requires s.Valid() && s.cond && a / 0x1000000 == 0xD4
    requires s.rest == [Line(0xD5000000, x, []), Line(a, b, []), Line(0xD6000000, to, [])]
    ensures DataResult(a % 256, x, b, Read32(Run(s), (to + s.offset) % 0x1_0000_0000))
  {
    hide Read32, Write32, DataOp, DataResult, Step, Run;
    var r, at := DataOp(x, a, b), (to + s.offset) % 0x1_0000_0000;
    DataOpIs(x, a, b);
    var t := s.(rest := s.rest[1..], datareg := x);
    var u := s.(rest := t.rest[1..], datareg := r);
    assert s.rest[1..] == [Line(a, b, []), Line(0xD6000000, to, [])] && t.rest[1..] == [Line(0xD6000000, to, [])];
    RegisterSteps(s);
    RunStep(s);
    RegisterSteps(t);
    RunStep(t);
    StoreRegister(u, to);
    Store32(s.mem, at, r, at);
  }

  lemma RegisterSteps(s: Machine)
    requires s.Valid() && s.cond && s.rest != []
    ensures var l, t := s.rest[0], s.(rest := s.rest[1..]);
            && (l.a / 0x1000000 == 0xD5 ==> Step(s) == Continue(t.(datareg := l.b)))
            && (l.a / 0x1000000 == 0xD4 ==> Step(s) == Continue(t.(datareg := DataOp(s.datareg, l.a, l.b))))
  {
    hide DataOp;
  }

  lemma StoreRegister(s: Machine, to: u32)
    requires s.Valid() && s.cond && s.rest == [Line(0xD6000000, to, [])]
    ensures Run(s) == Write32(s.mem, (to + s.offset) % 0x1_0000_0000, s.datareg)
  {
    hide Write32;
    RunStep(s);
    assert s.rest[1..] == [];
  }

  /** Under a false condition a line is passed over, but for the opcodes 0xC5, which counts, and 0xD0 to 0xD2. */
  lemma FalseConditionSkips(s: Machine)
    requires s.Valid() && !s.cond && s.rest != []
    ensures var op := s.rest[0].a / 0x1000000;
            && (op != 0xC5 && op != 0xD0 && op != 0xD1 && op != 0xD2 ==> Step(s) == Continue(s.(rest := s.rest[1..])))
            && (op == 0xC5 ==> Step(s) == Continue(s.(rest := s.rest[1..], c5count := (s.c5count + 1) % 0x1_0000_0000)))
            && (op == 0xD0 ==> s.depth > 0 ==> Step(s).Continue? && Step(s).next.cond)
            && (op == 0xD1 || op == 0xD2 ==> s.loopcount > 0 ==> Step(s).Continue? && Step(s).next.rest == s.loop)
  {
  }

  // ----- lines in a cheat -----

  /** The opcodes 0xE0 to 0xEF are followed by `b` bytes, filled up to a multiple of eight, other ones by nothing. */
  predicate Complete(l: Line) {
    if 0xE000_0000 <= l.a < 0xF000_0000 then |l.payload| % 2 == 0 && 4 * |l.payload| - 8 < l.b <= 4 * |l.payload|
    else l.payload == []
  }

  function Words(lines: seq<Line>): seq<u32> {
    if lines == [] then [] else [lines[0].a, lines[0].b] + lines[0].payload + Words(lines[1..])
  }

  /** Complete lines, written one after the other, are a cheat of just these lines. */
  lemma {:induction false} WholeLines(before: seq<u32>, lines: seq<Line>)
    requires forall l <- lines :: Complete(l)
    ensures WellFormed(before + Words(lines), |before|) && Lines(before + Words(lines), |before|) == lines
    decreases |lines|
  {
    if lines == [] {
      assert before + Words(lines) == before;
    } else {
      hide WellFormed, Lines, Complete;
      var l, code := lines[0], before + Words(lines);
      var next := before + [l.a, l.b] + l.payload;
      assert code == next + Words(lines[1..]);
      WholeLines(next, lines[1..]);
      LineComesFirst(code, |before|, l, |next|);
    }
  }

  lemma LineComesFirst(code: seq<u32>, pos: nat, l: Line, next: nat)
    requires pos + 2 + |l.payload| == next <= |code| && Complete(l) && WellFormed(code, next)
    requires code[pos] == l.a && code[pos + 1] == l.b && code[pos + 2..next] == l.payload
    ensures WellFormed(code, pos) && Lines(code, pos) == [l] + Lines(code, next)
  {
    PayloadIs(l);
    hide PayloadWords;
  }

  lemma PayloadIs(l: Line)
    requires Complete(l)
    ensures PayloadWords(l.a, l.b) == |l.payload|
  {
  }
}
