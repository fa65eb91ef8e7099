/**
  IF and ENDIF as blocks. Read as blocks, matched IFs and ENDIFs should leave the condition as they found
  it. An IF under a false condition opens nothing, but its ENDIF still closes something, and of the conditions
  that are open only the last 32 are kept. So they do exactly if no IF that is false contains another one and
  no more than 32 conditions are open at once.
*/
module CheatBlocks {
  import opened CheatEngine

  /** Lines that work on data, and blocks of them under a condition. */
  datatype Block = End | Do(line: Line, next: Block) | When(line: Line, body: Block, next: Block)

  const ENDIF := Line(0xD0000000, 0, [])

  predicate Plain(l: Line) {
    var op := Op(l.a);
    && |l.payload| == PayloadWords(l.a, l.b)
    && (op < 0x30 || 0xB0 <= op < 0xC0 || op == 0xC6 || 0xD3 <= op < 0xDD || 0xE0 <= op)
  }

  predicate Test(l: Line) { 0x30 <= Op(l.a) < 0xB0 && l.payload == [] }

  predicate WellBuilt(p: Block) {
    match p
    case End => true
    case Do(l, next) => Plain(l) && WellBuilt(next)
    case When(l, body, next) => Test(l) && WellBuilt(body) && WellBuilt(next)
  }

  /** The lines of a block, in the order of the code. */
  function Flat(p: Block): seq<Line> {
    match p
    case End => []
    case Do(l, next) => [l] + Flat(next)
    case When(l, body, next) => [l] + (Flat(body) + ([ENDIF] + Flat(next)))
  }

  /** How deep conditions are nested. */
  function Nesting(p: Block): nat {
    match p
    case End => 0
    case Do(_, next) => Nesting(next)
    case When(_, body, next) => Max(1 + Nesting(body), Nesting(next))
  }

  function Max(x: nat, y: nat): nat { if x < y then y else x }

  // ----- blocks read as blocks -----

  datatype Data = Data(offset: u32, datareg: u32, mem: Memory)

  function Of(s: Machine): Data { Data(s.offset, s.datareg, s.mem) }

  function With(s: Machine, d: Data): Machine { s.(offset := d.offset, datareg := d.datareg, mem := d.mem) }

  function Effect(d: Data, l: Line): Data
    requires Plain(l)
  {
    var s := Machine([], d.offset, d.datareg, true, 0, [], 0, true, 0, 0, d.mem);
    Of(if Op(l.a) < 0xD0 then Low(s, l).next else High(s, l).next)
  }

  predicate True(d: Data, l: Line) { Holds(d.mem, d.offset, l.a, l.b) }

  /** What a block means: a body is run if its condition holds. */
  function Ideal(d: Data, p: Block): Data
    requires WellBuilt(p)
    decreases p
  {
    match p
    case End => d
    case Do(l, next) => Ideal(Effect(d, l), next)
    case When(l, body, next) => Ideal(if True(d, l) then Ideal(d, body) else d, next)
  }

  /** No IF that is false contains another IF. */
  predicate Reached(d: Data, p: Block)
    requires WellBuilt(p)
    decreases p
  {
    match p
    case End => true
    case Do(l, next) => Reached(Effect(d, l), next)
    case When(l, body, next) =>
      if True(d, l) then Reached(d, body) && Reached(Ideal(d, body), next)
      else Nesting(body) == 0 && Reached(d, next)
  }

  /** How deep conditions are open at once: those of true IFs, and of the false ones, whose bodies open none. */
  function Open(d: Data, p: Block): nat
    requires WellBuilt(p)
    decreases p
  {
    match p
    case End => 0
    case Do(l, next) => Open(Effect(d, l), next)
    case When(l, body, next) =>
      if True(d, l) then Max(1 + Open(d, body), Open(Ideal(d, body), next)) else Max(1, Open(d, next))
  }

  // ----- blocks as they run -----

  predicate Usual(l: Line) { Plain(l) || Test(l) || l == ENDIF }

  /** One step over a line that neither loops nor stops. */
  function Next(s: Machine): (t: Machine)
    requires s.Valid() && s.rest != [] && Usual(s.rest[0])
    ensures t.Valid() && t.rest == s.rest[1..] && Step(s) == Continue(t)
  {
    Step(s).next
  }

  lemma PlainStep(s: Machine)
    requires s.Valid() && s.rest != [] && Plain(s.rest[0])
    ensures var t := s.(rest := s.rest[1..]);
            Next(s) == if s.cond then With(t, Effect(Of(s), s.rest[0])) else t
  {
  }

  lemma TestStep(s: Machine)
    requires s.Valid() && s.rest != [] && Test(s.rest[0])
    ensures var t := s.(rest := s.rest[1..]);
            Next(s) == if s.cond then Opened(t, True(Of(s), s.rest[0])) else t
  {
  }

  lemma EndStep(s: Machine)
    requires s.Valid() && s.rest != [] && s.rest[0] == ENDIF
    ensures Next(s) == s.(rest := s.rest[1..], cond := s.depth > 0, depth := if s.depth > 0 then s.depth - 1 else 0)
  {
  }

  /** The lines of `p` are next, and whole. */
  ghost predicate At(s: Machine, p: Block) {
    s.Valid() && WellBuilt(p) && Flat(p) <= s.rest
  }

  lemma Slices(rest: seq<Line>, l: Line, b: seq<Line>, n: seq<Line>)
    requires [l] + (b + ([ENDIF] + n)) <= rest
    ensures |rest| >= |b| + |n| + 2 && rest[0] == l && b <= rest[1..]
    ensures rest[1..][|b|..] == rest[|b| + 1..] && rest[|b| + 1] == ENDIF
    ensures rest[|b| + 1..][1..] == rest[|b| + 2..] && n <= rest[|b| + 2..]
    ensures rest[|b| + 2..][|n|..] == rest[|[l] + (b + ([ENDIF] + n))|..]
  {
    var all := [l] + (b + ([ENDIF] + n));
    assert forall i | 0 <= i < |all| :: rest[i] == all[i];
    assert b == rest[1..][..|b|];
    assert n == rest[|b| + 2..][..|n|];
  }

  lemma FlatWhen(l: Line, body: Block, next: Block)
    ensures Flat(When(l, body, next)) == [l] + (Flat(body) + ([ENDIF] + Flat(next)))
  {
  }

  /** The machine when the lines of `p` have run. */
  ghost function Past(s: Machine, p: Block): (t: Machine)
    requires At(s, p)
    ensures t.Valid() && t.rest == s.rest[|Flat(p)|..]
    decreases p
  {
    match p
    case End => s
    case Do(l, next) =>
      assert s.rest[0] == l && Flat(next) <= s.rest[1..];
      Past(Next(s), next)
    case When(l, body, next) =>
      FlatWhen(l, body, next);
      Slices(s.rest, l, Flat(body), Flat(next));
      Past(Next(Past(Next(s), body)), next)
  }

  /** Running on from before the lines of a block is running on from after them. */
  lemma {:induction false} RunPasses(s: Machine, p: Block)
    requires At(s, p)
    ensures Run(s) == Run(Past(s, p))
    decreases p
  {
    hide Step, Run, Machine.Valid;
    match p
    case End =>
    case Do(l, next) =>
      assert s.rest[0] == l && Flat(next) <= s.rest[1..];
      RunStep(s);
      RunPasses(Next(s), next);
    case When(l, body, next) =>
      FlatWhen(l, body, next);
      Slices(s.rest, l, Flat(body), Flat(next));
      RunStep(s);
      RunPasses(Next(s), body);
      RunStep(Past(Next(s), body));
      RunPasses(Next(Past(Next(s), body)), next);
  }

  lemma PastDo(s: Machine, l: Line, next: Block)
    requires At(s, Do(l, next))
    ensures s.rest != [] && Plain(l)
    ensures var t := s.(rest := s.rest[1..]);
            var n := if s.cond then With(t, Effect(Of(s), l)) else t;
            At(n, next) && Past(s, Do(l, next)) == Past(n, next)
  {
    hide Step, Machine.Valid, Effect;
    assert s.rest[0] == l && Flat(next) <= s.rest[1..];
    PlainStep(s);
  }

  ghost function Closed(u: Machine): Machine
    requires u.rest != []
  {
    u.(rest := u.rest[1..], cond := u.depth > 0, depth := if u.depth > 0 then u.depth - 1 else 0)
  }

  /** The three stages of a conditional block: the IF, the body, the ENDIF. */
  lemma PastWhen(s: Machine, l: Line, body: Block, next: Block)
    requires At(s, When(l, body, next))
    ensures s.rest != []
    ensures var t := s.(rest := s.rest[1..]);
            var i := if s.cond then Opened(t, True(Of(s), l)) else t;
            && At(i, body) && Past(i, body).rest != [] && At(Closed(Past(i, body)), next)
            && Past(s, When(l, body, next)) == Past(Closed(Past(i, body)), next)
  {
    hide Step, Machine.Valid, Flat;
    FlatWhen(l, body, next);
    Slices(s.rest, l, Flat(body), Flat(next));
    TestStep(s);
    EndStep(Past(Next(s), body));
  }

  /** Twice the depth the running condition belongs to; an ENDIF away from it, one less. */
  function Level(s: Machine): int { if s.cond then 2 * s.depth else 2 * s.depth - 1 }

  /** Blocks never raise the level, whatever their conditions are. */
  lemma {:induction false} LevelFalls(s: Machine, p: Block)
    requires At(s, p)
    ensures Level(Past(s, p)) <= Level(s)
    ensures !s.cond && Nesting(p) > 0 ==> Level(Past(s, p)) < Level(s) || Level(Past(s, p)) == -1
    decreases p
  {
    hide At, Past, Effect, Flat, Holds, Closed;
    match p
    case End => PastEnd(s);
    case Do(l, next) =>
      PastDo(s, l, next);
      var t := s.(rest := s.rest[1..]);
      LevelFalls(if s.cond then With(t, Effect(Of(s), l)) else t, next);
    case When(l, body, next) =>
      PastWhen(s, l, body, next);
      var t := s.(rest := s.rest[1..]);
      var i := if s.cond then Opened(t, True(Of(s), l)) else t;
      LevelFalls(i, body);
      var u := Past(i, body);
      ClosedLevel(s, if s.cond && True(Of(s), l) then 2 else if s.cond then 1 else 0, u);
      LevelFalls(Closed(u), next);
  }

  /** An ENDIF undoes what its IF has added to the level. */
  lemma ClosedLevel(s: Machine, raised: nat, u: Machine)
    requires u.rest != [] && raised <= 2 && (raised > 0 ==> s.cond) && Level(u) <= Level(s) + raised
    ensures Level(Closed(u)) <= Level(s) && Closed(u).depth <= s.depth
    ensures !s.cond ==> Level(Closed(u)) < Level(s) || Level(Closed(u)) == -1
  {
  }

  lemma PastEnd(s: Machine)
    requires At(s, End)
    ensures Past(s, End) == s
  {
  }

  /** Under a false condition, a block without conditions does nothing. */
  lemma {:induction false} Skips(s: Machine, p: Block)
    requires At(s, p) && !s.cond && Nesting(p) == 0
    ensures Past(s, p) == s.(rest := Past(s, p).rest)
    decreases p
  {
    hide At, Past, Effect, Flat, Holds;
    match p
    case End => PastEnd(s);
    case Do(l, next) =>
      PastDo(s, l, next);
      Skips(s.(rest := s.rest[1..]), next);
  }

  /** Every condition that counts is reached, and fits on the stack. */
  predicate Kept(s: Machine, p: Block)
    requires WellBuilt(p)
  {
    Reached(Of(s), p) && s.depth + Open(Of(s), p) <= 32
  }

  /** Where every condition is reached and fits, the code does what the blocks mean and gives back condition and
      depth. Elsewhere, something stays closed. */
  lemma {:induction false} BlocksRun(s: Machine, p: Block)
    requires At(s, p) && s.cond
    ensures Kept(s, p) ==> Past(s, p) == With(s, Ideal(Of(s), p)).(rest := Past(s, p).rest)
    ensures !Kept(s, p) ==> Level(Past(s, p)) <= 2 * s.depth - 2 || Level(Past(s, p)) == -1
    decreases p
  {
    hide At, Past, Effect, Flat, Holds, Plain, Test, Next, Step, PayloadWords;
    match p
    case End => PastEnd(s);
    case Do(l, next) =>
      PastDo(s, l, next);
      BlocksRun(With(s.(rest := s.rest[1..]), Effect(Of(s), l)), next);
    case When(l, body, next) =>
      PastWhen(s, l, body, next);
      var i := Opened(s.(rest := s.rest[1..]), True(Of(s), l));
      var c := Closed(Past(i, body));
      LevelFalls(i, body);
      if True(Of(s), l) {
        BlocksRun(i, body);
      } else if Nesting(body) == 0 {
        Skips(i, body);
      }
      if c.cond && c.depth == s.depth {
        BlocksRun(c, next);
      } else {
        LevelFalls(c, next);
      }
  }

  /** The exact condition: a block of matched IFs and ENDIFs that starts under a true condition gives back the
      condition and the depth if and only if no IF in it that is false contains another one, and no more than 32
      conditions are open at once. If so, the rest of the cheat runs on the data the blocks mean. */
  lemma BlocksRestoreIff(s: Machine, p: Block)
    requires At(s, p) && s.cond
    ensures Run(s) == Run(Past(s, p))
    ensures (Past(s, p).cond && Past(s, p).depth == s.depth) <==>
            (Reached(Of(s), p) && s.depth + Open(Of(s), p) <= 32)
    ensures Reached(Of(s), p) && s.depth + Open(Of(s), p) <= 32 ==> Of(Past(s, p)) == Ideal(Of(s), p)
  {
    hide At, Past, Flat, Run, Reached, Ideal, Open;
    RunPasses(s, p);
    BlocksRun(s, p);
  }

  /** The 33rd condition does not fit: a true IF at depth 32 and its ENDIF lose one. */
  lemma SaturatedIf(s: Machine, l: Line)
    requires At(s, When(l, End, End)) && s.cond && s.depth == 32 && True(Of(s), l)
    ensures Past(s, When(l, End, End)).depth == 31
  {
    hide At, Past, Flat, Holds;
    PastWhen(s, l, End, End);
    var i := Opened(s.(rest := s.rest[1..]), true);
    PastEnd(i);
    PastEnd(Closed(i));
  }

  /** True IFs, one in the other. */
  function Nest(n: nat): (p: Block)
    ensures WellBuilt(p) && Nesting(p) == n
  {
    if n == 0 then End else When(ALWAYS, Nest(n - 1), End)
  }

  lemma NestIs(n: nat)
    ensures Nest(n) == if n == 0 then End else When(ALWAYS, Nest(n - 1), End)
  {
  }

  const ALWAYS := Line(0x52000000, 0, [])

  /** `n` of them and their ENDIFs: beyond the 32nd, each ENDIF closes a condition from further out. */
  lemma {:induction false} NestPast(s: Machine, n: nat)
    requires At(s, Nest(n)) && s.cond && s.depth <= 32 && True(Of(s), ALWAYS)
    ensures var t, open := Past(s, Nest(n)), if s.depth + n <= 32 then s.depth + n else 32;
            Of(t) == Of(s) && t.cond == (open >= n) && t.depth == if open >= n then open - n else 0
    decreases n
  {
    hide At, Past, Flat, Holds, Nest, PayloadWords, Next, Step;
    if n == 0 {
      NestIs(0);
      PastEnd(s);
    } else {
      NestIs(n);
      PastWhen(s, ALWAYS, Nest(n - 1), End);
      var i := Opened(s.(rest := s.rest[1..]), true);
      NestPast(i, n - 1);
      PastEnd(Closed(Past(i, Nest(n - 1))));
    }
  }

  /** An IF in a false IF: the inner ENDIF switches the rest of the outer body on, the outer one switches what
      follows off. */
  lemma InnerEndifSwitchesOn(s: Machine, outer: Line, inner: Line, l: Line)
    requires At(s, When(outer, When(inner, End, Do(l, End)), End)) && Plain(l)
    requires s.cond && s.depth == 0 && !True(Of(s), outer)
    ensures var t := Past(s, When(outer, When(inner, End, Do(l, End)), End));
            !t.cond && Of(t) == Effect(Of(s), l) && Ideal(Of(s), When(outer, When(inner, End, Do(l, End)), End)) == Of(s)
  {
    hide At, Past, Effect, Flat, Holds;
    PastWhen(s, outer, When(inner, End, Do(l, End)), End);
    var i := Opened(s.(rest := s.rest[1..]), false);
    PastWhen(i, inner, End, Do(l, End));
    var j := i.(rest := i.rest[1..]);
    PastEnd(j);
    PastDo(Closed(j), l, End);
    var k := With(Closed(j).(rest := Closed(j).rest[1..]), Effect(Of(s), l));
    PastEnd(k);
    PastEnd(Closed(k));
  }

  /** The store runs though its condition is false. */
  lemma NestedFalseIf()
    ensures var store, never := Line(0x02000000, 1, []), Line(0x52000000, 5, []);
            var p := When(never, When(never, End, Do(store, End)), End);
            var s := Machine(Flat(p), 0, 0, true, 0, Flat(p), 0, true, 0, 0, map[]);
            && At(s, p) && !Past(s, p).cond
            && Read8(Past(s, p).mem, 0x02000000) == 1 && Read8(Ideal(Of(s), p).mem, 0x02000000) == 0
  {
    hide Past, Ideal, Read8, Holds, Effect, Plain, Test;
    var store, never := Line(0x02000000, 1, []), Line(0x52000000, 5, []);
    var p := When(never, When(never, End, Do(store, End)), End);
    var s := Machine(Flat(p), 0, 0, true, 0, Flat(p), 0, true, 0, 0, map[]);
    NeverAndStore();
    FlatSizes(p);
    InnerEndifSwitchesOn(s, never, never, store);
  }

  lemma NeverAndStore()
    ensures var store, never, d := Line(0x02000000, 1, []), Line(0x52000000, 5, []), Data(0, 0, map[]);
            && Plain(store) && Test(never) && !True(d, never) && Read8(map[], 0x02000000) == 0
            && Read8(Effect(d, store).mem, 0x02000000) == 1
  {
    hide Write32, Read8, Holds, Read32, Low, High;
    StoredOne();
    NeverHolds();
    StoreEffect();
  }

  lemma NeverHolds()
    ensures !Holds(map[], 0, 0x52000000, 5)
  {
    hide And, Read16, Read32;
    StoredOne();
  }

  lemma StoreEffect()
    ensures var s := Machine([], 0, 0, true, 0, [], 0, true, 0, 0, map[]);
            Low(s, Line(0x02000000, 1, [])) == Continue(s.(mem := Write32(map[], 0x02000000, 1)))
  {
    hide Write32;
  }

  lemma StoredOne()
    ensures Read8(Write32(map[], 0x02000000, 1), 0x02000000) == 1
    ensures Read32(map[], 0x02000000) == 0 && Read8(map[], 0x02000000) == 0
  {
  }

  /** 33 true IFs, one in the other, and a store behind them: the last ENDIF finds nothing to close and switches
      the store off. */
  lemma ThirtyThreeIfs()
    ensures var store := Line(0x02000000, 1, []);
            var p := When(ALWAYS, Nest(32), Do(store, End));
            var s := Machine(Flat(p), 0, 0, true, 0, Flat(p), 0, true, 0, 0, map[]);
            && At(s, p) && Reached(Of(s), p) && Open(Of(s), p) == 33 && !Past(s, p).cond
            && Read8(Past(s, p).mem, 0x02000000) == 0 && Read8(Ideal(Of(s), p).mem, 0x02000000) == 1
  {
    hide Past, Ideal, Read8, Holds, Effect, Plain, Test, Flat, Nest, Reached, Open;
    var store := Line(0x02000000, 1, []);
    var p := When(ALWAYS, Nest(32), Do(store, End));
    var s := Machine(Flat(p), 0, 0, true, 0, Flat(p), 0, true, 0, 0, map[]);
    NeverAndStore();
    AlwaysHolds();
    FlatSizes(p);
    NestMeans(Of(s), 32);
    SaturatedMeans(Of(s), store);
    PastWhen(s, ALWAYS, Nest(32), Do(store, End));
    var i := Opened(s.(rest := s.rest[1..]), true);
    NestPast(i, 32);
    var c := Closed(Past(i, Nest(32)));
    PastDo(c, store, End);
    PastEnd(c.(rest := c.rest[1..]));
  }

  lemma {:induction false} NestMeans(d: Data, n: nat)
    requires True(d, ALWAYS)
    ensures Ideal(d, Nest(n)) == d && Reached(d, Nest(n)) && Open(d, Nest(n)) == n
  {
    hide Holds, Nest, PayloadWords;
    assert Ideal(d, End) == d && Reached(d, End) && Open(d, End) == 0;
    if n == 0 {
      NestIs(0);
    } else {
      NestMeans(d, n - 1);
      NestIs(n);
    }
  }

  lemma SaturatedMeans(d: Data, store: Line)
    requires True(d, ALWAYS) && Plain(store)
    requires Ideal(d, Nest(32)) == d && Reached(d, Nest(32)) && Open(d, Nest(32)) == 32
    ensures var p := When(ALWAYS, Nest(32), Do(store, End));
            Ideal(d, p) == Effect(d, store) && Reached(d, p) && Open(d, p) == 33
  {
    hide Holds, Effect, Nest;
    var e := Effect(d, store);
    assert Ideal(e, End) == e && Reached(e, End) && Open(e, End) == 0;
    assert Ideal(d, Do(store, End)) == e && Reached(d, Do(store, End)) && Open(d, Do(store, End)) == 0;
  }

  lemma AlwaysHolds()
    ensures Holds(map[], 0, 0x52000000, 0) && Test(ALWAYS)
  {
    hide And, Read16, Read32;
    StoredOne();
  }

  /** The lines of a block have their payloads. */
  lemma {:induction false} FlatSizes(p: Block)
    requires WellBuilt(p)
    ensures forall l <- Flat(p) :: |l.payload| == PayloadWords(l.a, l.b)
  {
    match p
    case End =>
    case Do(l, next) => FlatSizes(next);
    case When(l, body, next) =>
      FlatSizes(body);
      FlatSizes(next);
  }
}
