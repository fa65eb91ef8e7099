/**
  ADDS, ADCS, SUBS and SBCS (src/ARMInterpreter_ALU.cpp) chained over the limbs of numbers of any length.
*/
module MultiWord {
  const WORD := 0x1_0000_0000
  const HALF := 0x8000_0000

  type u32 = x: nat | x < 0x1_0000_0000

  datatype Flags = Flags(n: bool, z: bool, c: bool, v: bool)

  predicate Negative(x: u32) { x >= HALF }

  /** A word as a signed number. */
  function Signed(x: u32): int { if Negative(x) then x - WORD else x }

  function Wrap(x: int): u32 { x % WORD }

  // ----- the helpers of the code -----

  predicate CarryAdd(a: u32, b: u32) { 0xFFFFFFFF - a < b }

  predicate CarrySub(a: u32, b: u32) { a >= b }

  predicate OverflowAdd(a: u32, b: u32) {
    var res := Wrap(a + b);
    Negative(a) == Negative(b) && Negative(a) != Negative(res)
  }

  predicate OverflowSub(a: u32, b: u32) {
    var res := Wrap(a - b);
    Negative(a) != Negative(b) && Negative(a) != Negative(res)
  }

  predicate OverflowAdc(a: u32, b: u32, carry: u32) {
    Signed(Wrap(a + b + carry)) != Signed(a) + Signed(b) + carry
  }

  predicate OverflowSbc(a: u32, b: u32, carry: u32) {
    Signed(Wrap(a - b - carry)) != Signed(a) - Signed(b) - carry
  }

  function NzFlags(res: u32, c: bool, v: bool): Flags { Flags(Negative(res), res == 0, c, v) }

  // ----- one limb -----

  datatype Sum = Sum(res: u32, flags: Flags)

  function Adds(a: u32, b: u32): Sum {
    var res := Wrap(a + b);
    Sum(res, NzFlags(res, CarryAdd(a, b), OverflowAdd(a, b)))
  }

  function Adcs(a: u32, b: u32, c: bool): Sum {
    var tmp := Wrap(a + b);
    var carry := if c then 1 else 0;
    var res := Wrap(tmp + carry);
    Sum(res, NzFlags(res, CarryAdd(a, b) || CarryAdd(tmp, carry), OverflowAdc(a, b, carry)))
  }

  function Subs(a: u32, b: u32): Sum {
    var res := Wrap(a - b);
    Sum(res, NzFlags(res, CarrySub(a, b), OverflowSub(a, b)))
  }

  function Sbcs(a: u32, b: u32, c: bool): Sum {
    var tmp := Wrap(a - b);
    var carry := if c then 0 else 1;
    var res := Wrap(tmp - carry);
    Sum(res, NzFlags(res, CarrySub(a, b) && CarrySub(tmp, carry), OverflowSbc(a, b, carry)))
  }

  predicate Fits(x: int) { -HALF <= x < HALF }

  function Bit(b: bool): int { if b then 1 else 0 }

  /** V says whether the signed result `x` fits; if so it is the result, and N its sign in any case. */
  predicate SignedExactly(s: Sum, x: int) {
    && (s.flags.v <==> !Fits(x)) && (Fits(x) ==> Signed(s.res) == x)
    && (s.flags.n <==> Signed(s.res) < 0) && (s.flags.z <==> s.res == 0)
  }

  lemma AddsIsExact(a: u32, b: u32)
    ensures var s := Adds(a, b);
            s.res + WORD * Bit(s.flags.c) == a + b && SignedExactly(s, Signed(a) + Signed(b))
  {
  }

  lemma AdcsIsExact(a: u32, b: u32, c: bool)
    ensures var s := Adcs(a, b, c);
            s.res + WORD * Bit(s.flags.c) == a + b + Bit(c) && SignedExactly(s, Signed(a) + Signed(b) + Bit(c))
  {
    hide SignedExactly;
    AdcsIsSigned(a, b, c);
  }

  lemma AdcsIsSigned(a: u32, b: u32, c: bool)
    ensures SignedExactly(Adcs(a, b, c), Signed(a) + Signed(b) + Bit(c))
  {
  }

  lemma SubsIsExact(a: u32, b: u32)
    ensures var s := Subs(a, b);
            s.res - WORD * Bit(!s.flags.c) == a - b && SignedExactly(s, Signed(a) - Signed(b))
  {
  }

  lemma SbcsIsExact(a: u32, b: u32, c: bool)
    ensures var s := Sbcs(a, b, c);
            s.res - WORD * Bit(!s.flags.c) == a - b - Bit(!c) && SignedExactly(s, Signed(a) - Signed(b) - Bit(!c))
  {
    hide SignedExactly;
    SbcsIsSigned(a, b, c);
  }

  lemma SbcsIsSigned(a: u32, b: u32, c: bool)
    ensures SignedExactly(Sbcs(a, b, c), Signed(a) - Signed(b) - Bit(!c))
  {
    if c {
    } else {
    }
  }

  // ----- numbers of several limbs -----

  function Front<T>(s: seq<T>): seq<T>
    requires s != []
  {
    s[..|s| - 1]
  }

  function Top<T>(s: seq<T>): T
    requires s != []
  {
    s[|s| - 1]
  }

  /** The limbs of a result, lowest first, and the flags after the last of them. */
  datatype Number = Number(words: seq<u32>, flags: Flags)

  function First(x: u32, y: u32, sub: bool): Sum { if sub then Subs(x, y) else Adds(x, y) }

  function Further(x: u32, y: u32, c: bool, sub: bool): Sum { if sub then Sbcs(x, y, c) else Adcs(x, y, c) }

  /** ADDS and then ADCS for every further limb, or SUBS and then SBCS. Only C goes from limb to limb: the
      operands and results may be loaded and stored in between. */
  function Chain(a: seq<u32>, b: seq<u32>, sub: bool): (t: Number)
    requires |a| == |b| && a != []
    ensures |t.words| == |a|
    decreases |a|
  {
    if |a| == 1 then
      var s := First(a[0], b[0], sub);
      Number([s.res], s.flags)
    else
      var u := Chain(Front(a), Front(b), sub);
      var s := Further(Top(a), Top(b), u.flags.c, sub);
      Number(u.words + [s.res], s.flags)
  }

  function Pow(n: nat): (p: nat)
    ensures p > 0
  {
    if n == 0 then 1 else WORD * Pow(n - 1)
  }

  function Times(x: int, p: nat): (r: int)
    ensures x >= 0 ==> r >= 0
  {
    x * p
  }

  /** A number of as many limbs as there are words, lowest first. */
  function Value(words: seq<u32>): nat {
    if words == [] then 0 else Value(Front(words)) + Times(Top(words), Pow(|words| - 1))
  }

  function SignedValue(words: seq<u32>): int
    requires words != []
  {
    Value(Front(words)) + Times(Signed(Top(words)), Pow(|words| - 1))
  }

  lemma {:induction false} ValueBound(words: seq<u32>)
    ensures Value(words) < Pow(|words|)
  {
    if words != [] {
      ValueBound(Front(words));
      Scale(Top(words), WORD - 1, Pow(|words| - 1));
    }
  }

  lemma Scale(x: int, y: int, p: nat)
    requires x <= y
    ensures Times(x, p) <= y * p
  {
  }

  lemma ValueOfTop(words: seq<u32>)
    requires words != []
    ensures Value(words) == Value(Front(words)) + Times(Top(words), Pow(|words| - 1))
    ensures SignedValue(words) == Value(Front(words)) + Times(Signed(Top(words)), Pow(|words| - 1))
    ensures Pow(|words|) == WORD * Pow(|words| - 1) && Value([]) == 0
  {
  }

  /** What goes into the top limb from below, carry or borrow. */
  function CarryIn(a: seq<u32>, b: seq<u32>, sub: bool): bool
    requires |a| == |b| && a != []
  {
    |a| > 1 && Chain(Front(a), Front(b), sub).flags.c != sub
  }

  /** `x` plus or minus `y` and a carry. */
  function Combined(x: int, y: int, in_: bool, sub: bool): int {
    if sub then x - y - Bit(in_) else x + y + Bit(in_)
  }

  /** What a limb computes from `x`, `y` and the carry or borrow that goes in. */
  predicate LimbIsExact(s: Sum, x: u32, y: u32, in_: bool, sub: bool) {
    && s.res + (if sub then -WORD else WORD) * Bit(s.flags.c != sub) == Combined(x, y, in_, sub)
    && SignedExactly(s, Combined(Signed(x), Signed(y), in_, sub))
  }

  lemma LimbsAreExact(x: u32, y: u32, c: bool, sub: bool)
    ensures LimbIsExact(First(x, y, sub), x, y, false, sub)
    ensures LimbIsExact(Further(x, y, c, sub), x, y, c != sub, sub)
  {
    hide Adds, Adcs, Subs, Sbcs, Signed, SignedExactly;
    if sub {
      SubsIsExact(x, y);
      SbcsIsExact(x, y, c);
    } else {
      AddsIsExact(x, y);
      AdcsIsExact(x, y, c);
    }
  }

  /** The limb a chain ends with. */
  lemma TopLimb(a: seq<u32>, b: seq<u32>, sub: bool)
    requires |a| == |b| && a != []
    ensures var t := Chain(a, b, sub);
            && Front(t.words) == (if |a| == 1 then [] else Chain(Front(a), Front(b), sub).words)
            && LimbIsExact(Sum(Top(t.words), t.flags), Top(a), Top(b), CarryIn(a, b, sub), sub)
  {
    hide LimbIsExact, First, Further;
    var u := if |a| == 1 then Number([], Flags(false, false, false, false)) else Chain(Front(a), Front(b), sub);
    LimbsAreExact(Top(a), Top(b), u.flags.c, sub);
    assert Front(Chain(a, b, sub).words) == u.words;
  }

  function Carried(c: bool, n: nat): nat { if c then Pow(n) else 0 }

  /** What a chain has computed after all its limbs, however many there are: the carry out of the number is C
      for a sum, not C for a difference. */
  lemma {:induction false} ChainIsExact(a: seq<u32>, b: seq<u32>, sub: bool)
    requires |a| == |b| && a != []
    ensures var t := Chain(a, b, sub);
            if sub then Value(t.words) - Carried(!t.flags.c, |a|) == Value(a) - Value(b)
            else Value(t.words) + Carried(t.flags.c, |a|) == Value(a) + Value(b)
    decreases |a|
  {
    hide Chain, Value, Pow, Times, SignedValue, Signed, SignedExactly;
    var t, in_ := Chain(a, b, sub), CarryIn(a, b, sub);
    TopLimb(a, b, sub);
    ValueOfTop(a);
    ValueOfTop(b);
    ValueOfTop(t.words);
    Spread(Pow(|a| - 1), Top(t.words), Top(a), Top(b), t.flags.c != sub, in_, sub);
    if |a| > 1 {
      ChainIsExact(Front(a), Front(b), sub);
    }
  }

  lemma Spread(p: nat, res: int, x: int, y: int, out: bool, in_: bool, sub: bool)
    requires res + (if sub then -WORD else WORD) * Bit(out) == Combined(x, y, in_, sub)
    ensures sub ==> Times(res, p) - (if out then WORD * p else 0) == Times(x, p) - Times(y, p) - if in_ then p else 0
    ensures !sub ==> Times(res, p) + (if out then WORD * p else 0) == Times(x, p) + Times(y, p) + if in_ then p else 0
  {
    assert (res + (if sub then -WORD else WORD) * Bit(out)) * p == Combined(x, y, in_, sub) * p;
  }

  /** V after the last limb is the signed overflow of the whole number, N its sign, and without overflow the
      result is the signed sum or difference. */
  lemma ChainOverflows(a: seq<u32>, b: seq<u32>, sub: bool)
    requires |a| == |b| && a != []
    ensures var t, n := Chain(a, b, sub), |a|;
            var r, x := SignedValue(t.words), if sub then SignedValue(a) - SignedValue(b) else SignedValue(a) + SignedValue(b);
            && (t.flags.v <==> !(-HALF * Pow(n - 1) <= x < HALF * Pow(n - 1)))
            && (!t.flags.v ==> r == x) && (t.flags.n <==> r < 0)
  {
    hide Chain, Value, Pow, Times, SignedValue, Signed, Fits, Combined;
    var t, in_, p := Chain(a, b, sub), CarryIn(a, b, sub), Pow(|a| - 1);
    var low, top := Value(Front(t.words)), Combined(Signed(Top(a)), Signed(Top(b)), in_, sub);
    TopLimb(a, b, sub);
    ValueOfTop(a);
    ValueOfTop(b);
    ValueOfTop(t.words);
    ValueBound(Front(t.words));
    if |a| > 1 {
      ChainIsExact(Front(a), Front(b), sub);
    }
    TopSum(p, Signed(Top(a)), Signed(Top(b)), in_, sub);
    OverflowOfTop(p, low, top);
    SignOfTop(p, low, Signed(Top(t.words)));
  }

  lemma TopSum(p: nat, x: int, y: int, in_: bool, sub: bool)
    ensures sub ==> Times(x, p) - Times(y, p) - (if in_ then p else 0) == Times(Combined(x, y, in_, sub), p)
    ensures !sub ==> Times(x, p) + Times(y, p) + (if in_ then p else 0) == Times(Combined(x, y, in_, sub), p)
  {
    assert (x - y - Bit(in_)) * p == x * p - y * p - Bit(in_) * p;
    assert (x + y + Bit(in_)) * p == x * p + y * p + Bit(in_) * p;
  }

  lemma OverflowOfTop(p: nat, low: nat, top: int)
    requires low < p
    ensures Fits(top) <==> -HALF * p <= low + Times(top, p) < HALF * p
  {
    hide Times;
    TimesHalf(p);
    if top >= HALF { TimesGrow(HALF, top, p); } else { TimesGrow(top + 1, HALF, p); }
    if top >= -HALF { TimesGrow(-HALF, top, p); } else { TimesGrow(top + 1, -HALF, p); }
    TimesNext(top, p);
  }

  lemma TimesHalf(p: nat)
    ensures Times(HALF, p) == HALF * p && Times(-HALF, p) == -HALF * p && Times(0, p) == 0
  {
  }

  lemma TimesNext(x: int, p: nat)
    ensures Times(x + 1, p) == Times(x, p) + p
  {
  }

  lemma TimesGrow(x: int, y: int, p: nat)
    requires x <= y
    ensures Times(x, p) <= Times(y, p)
  {
  }

  lemma SignOfTop(p: nat, low: nat, top: int)
    requires low < p
    ensures low + Times(top, p) < 0 <==> top < 0
  {
    hide Times;
    TimesHalf(p);
    TimesNext(top, p);
    if top < 0 { TimesGrow(top + 1, 0, p); } else { TimesGrow(0, top, p); }
  }

  // ----- the instructions -----

  datatype State = State(r: seq<u32>, flags: Flags)

  function Put(s: State, rd: nat, sum: Sum): (t: State)
    requires rd < |s.r|
    ensures |t.r| == |s.r|
  {
    State(s.r[rd := sum.res], sum.flags)
  }

  /** Operands and result of one limb that stays in registers. */
  datatype Limb = Limb(rd: nat, rn: nat, rm: nat)

  predicate InFile(limbs: seq<Limb>) { forall l <- limbs :: l.rd < 15 && l.rn < 15 && l.rm < 15 }

  /** No result is written over an operand or result that is still needed. */
  predicate Apart(limbs: seq<Limb>) {
    forall i, j | 0 <= i < j < |limbs| ::
      limbs[i].rd != limbs[j].rn && limbs[i].rd != limbs[j].rm && limbs[i].rd != limbs[j].rd
  }

  function Lefts(r: seq<u32>, limbs: seq<Limb>): (w: seq<u32>)
    requires |r| == 16 && InFile(limbs)
    ensures |w| == |limbs|
  {
    seq(|limbs|, i requires 0 <= i < |limbs| => r[limbs[i].rn])
  }

  function Rights(r: seq<u32>, limbs: seq<Limb>): (w: seq<u32>)
    requires |r| == 16 && InFile(limbs)
    ensures |w| == |limbs|
  {
    seq(|limbs|, i requires 0 <= i < |limbs| => r[limbs[i].rm])
  }

  function Results(r: seq<u32>, limbs: seq<Limb>): (w: seq<u32>)
    requires |r| == 16 && InFile(limbs)
    ensures |w| == |limbs|
  {
    seq(|limbs|, i requires 0 <= i < |limbs| => r[limbs[i].rd])
  }

  lemma ChainStep(a: seq<u32>, b: seq<u32>, sub: bool, n: nat)
    requires |a| == |b| && n < |a|
    ensures Chain(a[..n + 1], b[..n + 1], sub) ==
            if n == 0 then Number([First(a[0], b[0], sub).res], First(a[0], b[0], sub).flags)
            else
              var u := Chain(a[..n], b[..n], sub);
              var s := Further(a[n], b[n], u.flags.c, sub);
              Number(u.words + [s.res], s.flags)
  {
    hide First, Further;
    assert Front(a[..n + 1]) == a[..n] && Front(b[..n + 1]) == b[..n];
  }

  /** The registers that are results of no limb are as they were. */
  ghost predicate OthersStay(was: seq<u32>, now: seq<u32>, limbs: seq<Limb>) {
    |was| == |now| == 16 && forall k | 0 <= k < 16 && (forall l <- limbs :: l.rd != k) :: now[k] == was[k]
  }

  /** Writing the next result leaves the results so far, and the limb works on the original operands. */
  lemma RegisterStep(was: seq<u32>, now: seq<u32>, limbs: seq<Limb>, n: nat, res: u32)
    requires InFile(limbs) && Apart(limbs) && n < |limbs| && OthersStay(was, now, limbs[..n])
    ensures now[limbs[n].rn] == Lefts(was, limbs)[n] && now[limbs[n].rm] == Rights(was, limbs)[n]
    ensures var after := now[limbs[n].rd := res];
            && OthersStay(was, after, limbs[..n + 1])
            && Results(after, limbs[..n + 1]) == Results(now, limbs[..n]) + [res]
  {
    var l := limbs[n];
    assert forall i | 0 <= i < n :: limbs[i].rd != l.rn && limbs[i].rd != l.rm && limbs[i].rd != l.rd;
    assert limbs[..n + 1] == limbs[..n] + [l];
  }

  /** The instruction functions, for results other than the program counter. */
  class CPU {
    const R: array<u32>
    var flags: Flags

    constructor ()
      ensures Shape()
    {
      R := new u32[16](_ => 0);
      flags := Flags(false, false, false, false);
    }

    ghost predicate Shape() { R.Length == 16 }

    ghost function Now(): (s: State)
      reads this, R
    {
      State(R[..], flags)
    }

    method SetNZCV(n: bool, z: bool, c: bool, v: bool)
      modifies this
      ensures flags == Flags(n, z, c, v)
    {
      flags := Flags(n, z, c, v);
    }

    method A_ADD_S(rd: nat, rn: nat, b: u32)
      requires Shape() && rd < 15 && rn < 16
      modifies this, R
      ensures Now() == Put(old(Now()), rd, Adds(old(R[rn]), b))
    {
      var a := R[rn];
      var res := Wrap(a + b);
      SetNZCV(Negative(res), res == 0, CarryAdd(a, b), OverflowAdd(a, b));
      R[rd] := res;
    }

    method A_ADC_S(rd: nat, rn: nat, b: u32)
      requires Shape() && rd < 15 && rn < 16
      modifies this, R
      ensures Now() == Put(old(Now()), rd, Adcs(old(R[rn]), b, old(flags.c)))
    {
      var a := R[rn];
      var tmp: int := Wrap(a + b);
      var carry: int := if flags.c then 1 else 0;
      var res := Wrap(tmp + carry);
      SetNZCV(Negative(res), res == 0, CarryAdd(a, b) || CarryAdd(tmp, carry), OverflowAdc(a, b, carry));
      R[rd] := res;
    }

    method A_SUB_S(rd: nat, rn: nat, b: u32)
      requires Shape() && rd < 15 && rn < 16
      modifies this, R
      ensures Now() == Put(old(Now()), rd, Subs(old(R[rn]), b))
    {
      var a := R[rn];
      var res := Wrap(a - b);
      SetNZCV(Negative(res), res == 0, CarrySub(a, b), OverflowSub(a, b));
      R[rd] := res;
    }

    method A_SBC_S(rd: nat, rn: nat, b: u32)
      requires Shape() && rd < 15 && rn < 16
      modifies this, R
      ensures Now() == Put(old(Now()), rd, Sbcs(old(R[rn]), b, old(flags.c)))
    {
      var a := R[rn];
      var tmp: int := Wrap(a - b);
      var carry: int := if flags.c then 0 else 1;
      var res := Wrap(tmp - carry);
      SetNZCV(Negative(res), res == 0, CarrySub(a, b) && CarrySub(tmp, carry), OverflowSbc(a, b, carry));
      R[rd] := res;
    }

    /** One instruction of a chain. */
    method ExecuteLimb(rd: nat, rn: nat, b: u32, first: bool, sub: bool)
      requires Shape() && rd < 15 && rn < 16
      modifies this, R
      ensures Now() == Put(old(Now()), rd, if first then First(old(R[rn]), b, sub) else Further(old(R[rn]), b, old(flags.c), sub))
    {
      if first && sub {
        A_SUB_S(rd, rn, b);
      } else if first {
        A_ADD_S(rd, rn, b);
      } else if sub {
        A_SBC_S(rd, rn, b);
      } else {
        A_ADC_S(rd, rn, b);
      }
    }

    /** Numbers of any length, whose limbs go through r0 and r1. */
    method ChainWords(a: seq<u32>, b: seq<u32>, sub: bool) returns (words: seq<u32>)
      requires Shape() && |a| == |b| && a != []
      modifies this, R
      ensures Number(words, flags) == Chain(a, b, sub)
    {
      words := [];
      for i := 0 to |a|
        invariant |words| == i
        invariant i > 0 ==> Number(words, flags) == Chain(a[..i], b[..i], sub)
      {
        ChainStep(a, b, sub, i);
        R[0], R[1] := a[i], b[i];
        ExecuteLimb(0, 0, R[1], i == 0, sub);
        words := words + [R[0]];
      }
      assert a[..|a|] == a && b[..|b|] == b;
    }

    /** Numbers in registers: their chain is the one over the words that the registers held. */
    method ChainRegisters(limbs: seq<Limb>, sub: bool)
      requires Shape() && InFile(limbs) && limbs != [] && Apart(limbs)
      modifies this, R
      ensures Number(Results(R[..], limbs), flags) == Chain(Lefts(old(R[..]), limbs), Rights(old(R[..]), limbs), sub)
      ensures OthersStay(old(R[..]), R[..], limbs)
    {
      hide Chain, OthersStay, Apart, Lefts, Rights, Results, First, Further;
      ghost var was := R[..];
      ghost var a, b := Lefts(was, limbs), Rights(was, limbs);
      NothingWritten(was, limbs);
      for i := 0 to |limbs|
        invariant OthersStay(was, R[..], limbs[..i])
        invariant Results(R[..], limbs[..i]) == if i == 0 then [] else Chain(a[..i], b[..i], sub).words
        invariant i > 0 ==> flags == Chain(a[..i], b[..i], sub).flags
      {
        var l := limbs[i];
        ghost var before := R[..];
        ChainStep(a, b, sub, i);
        RegisterStep(was, before, limbs, i, 0);
        ExecuteLimb(l.rd, l.rn, R[l.rm], i == 0, sub);
        RegisterStep(was, before, limbs, i, R[l.rd]);
        assert R[..] == before[l.rd := R[l.rd]];
      }
      assert limbs[..|limbs|] == limbs && a[..|a|] == a && b[..|b|] == b;
    }
  }

  lemma NothingWritten(was: seq<u32>, limbs: seq<Limb>)
    requires |was| == 16
    ensures OthersStay(was, was, limbs[..0]) && Results(was, limbs[..0]) == []
  {
  }
}
