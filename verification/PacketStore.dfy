/**
  The live packets of netplay (src/ARM.cpp): packets of two players by a 16-bit tick that wraps around, with
  eviction of old ticks on a push and a search for the latest packet at or before a tick.
*/
module PacketStore {
  type u8 = x: nat | x < 256
  type Packet = p: seq<u8> | |p| == 52 witness seq(52, _ => 0)
  type Player = p: nat | p <= 1

  datatype Option<T> = None | Some(value: T)

  /** The packets of the two players, where they are valid. */
  datatype Entry = Entry(first: Option<Packet>, second: Option<Packet>) {
    function Of(player: Player): Option<Packet> {
      if player == 0 then first else second
    }

    function With(player: Player, packet: Packet): Entry {
      if player == 0 then this.(first := Some(packet)) else this.(second := Some(packet))
    }
  }

  type Store = map<nat, Entry>

  const TICKS := 0x10000

  predicate Sound(m: Store) { forall k <- m :: k < TICKS }

  function TickOf(packet: Packet): (t: nat)
    ensures t < TICKS
  {
    packet[0] as nat + 0x100 * packet[1] as nat
  }

  /** The first two bytes are the tick, the lower one first. */
  lemma TickBytes(packet: Packet)
    ensures TickOf(packet) % 256 == packet[0] && TickOf(packet) / 256 == packet[1]
  {
  }

  /** How far `key` is behind `tick` on the wrapping clock. */
  function Age(tick: nat, key: nat): nat { (tick - key) % TICKS }

  // ----- pushing -----

  function Inserted(m: Store, player: Player, packet: Packet): Store
  {
    var tick := TickOf(packet);
    m[tick := (if tick in m then m[tick] else Entry(None, None)).With(player, packet)]
  }

  function KeepFrom(tick: nat): nat { if tick > 256 then tick - 256 else 0 }

  function Pushed(m: Store, player: Player, packet: Packet): Store
  {
    var n := Inserted(m, player, packet);
    if |n| > 512 then map k | k in n && k >= KeepFrom(TickOf(packet)) :: n[k] else n
  }

  /** Exactly which ticks a push evicts: with more than 512, those more than 256 below the pushed one as
      plain numbers. What it keeps, it keeps as it is. */
  lemma PushEvicts(m: Store, player: Player, packet: Packet, k: nat)
    requires k in m
    ensures var tick, n := TickOf(packet), Pushed(m, player, packet);
            && (k !in n <==> |Inserted(m, player, packet)| > 512 && k + 256 < tick)
            && (k in n && k != tick ==> n[k] == m[k])
  {
  }

  /** No push evicts what is at most 256 ticks old, across a wraparound too. */
  lemma RecentStays(m: Store, player: Player, packet: Packet, k: nat)
    requires Sound(m) && k in m && Age(TickOf(packet), k) <= 256
    ensures k in Pushed(m, player, packet)
    ensures k != TickOf(packet) ==> Pushed(m, player, packet)[k] == m[k]
  {
    PushEvicts(m, player, packet, k);
  }

  /** The pushed packet is there, and the other player's packet of that tick is the one that was. */
  lemma PushStores(m: Store, player: Player, packet: Packet)
    ensures var tick, n := TickOf(packet), Pushed(m, player, packet);
            && tick in n && n[tick].Of(player) == Some(packet)
            && n[tick].Of(1 - player) == (if tick in m then m[tick].Of(1 - player) else None)
            && n.Keys <= m.Keys + {tick}
  {
  }

  /** Ticks above the pushed one stay: packets of the last turn of the clock are there until it is back. */
  lemma AheadStays(m: Store, player: Player, packet: Packet, k: nat)
    requires k in m && k > TickOf(packet)
    ensures k in Pushed(m, player, packet) && Pushed(m, player, packet)[k] == m[k]
  {
    PushEvicts(m, player, packet, k);
  }

  // ----- runs -----

  datatype Push = Push(player: Player, packet: Packet)

  function PushedAll(m: Store, pushes: seq<Push>): Store
  {
    if pushes == [] then m
    else
      var last := pushes[|pushes| - 1];
      Pushed(PushedAll(m, pushes[..|pushes| - 1]), last.player, last.packet)
  }

  /** Each push is of the tick of the one before, or of the next, modulo 65536. */
  predicate Steady(pushes: seq<Push>)
  {
    forall i | 0 < i < |pushes| ::
      var before, tick := TickOf(pushes[i - 1].packet), TickOf(pushes[i].packet);
      tick == before || tick == (before + 1) % TICKS
  }

  ghost function High(m: Store, tick: nat): set<nat> { set k | k in m && k > tick }

  ghost function Low(m: Store, tick: nat): set<nat> { set k | k in m && k <= tick }

  /** At most 512 ticks of the last turn of the clock, and of this turn all of a small store or the last 257. */
  ghost predicate Bounded(m: Store, tick: nat) {
    && Sound(m) && tick < TICKS && |High(m, tick)| <= 512
    && (|m| <= 512 || forall k <- Low(m, tick) :: tick <= k + 256)
  }

  lemma {:induction false} IntervalSize(s: set<nat>, from: int, n: nat)
    requires forall k <- s :: from <= k < from + n
    ensures |s| <= n
    decreases n
  {
    if n == 0 {
      assert s == {};
    } else {
      var last := from + n - 1;
      IntervalSize(s - {last}, from, n - 1);
    }
  }

  lemma Split(m: Store, tick: nat)
    ensures |m| == |High(m, tick)| + |Low(m, tick)|
  {
    assert m.Keys == High(m, tick) + Low(m, tick);
    assert High(m, tick) !! Low(m, tick);
  }

  lemma BoundedSize(m: Store, tick: nat)
    requires Bounded(m, tick)
    ensures |m| <= 769
  {
    Split(m, tick);
    if |m| > 512 {
      IntervalSize(Low(m, tick), tick - 256, 257);
    }
  }

  lemma PushStaysBounded(m: Store, before: nat, player: Player, packet: Packet)
    requires Bounded(m, before)
    requires TickOf(packet) == before || TickOf(packet) == (before + 1) % TICKS
    ensures Bounded(Pushed(m, player, packet), TickOf(packet))
  {
    var tick := TickOf(packet);
    var n, r := Inserted(m, player, packet), Pushed(m, player, packet);
    if tick >= before {
      assert High(r, tick) <= High(m, before);
      Smaller(High(r, tick), High(m, before));
    } else {
      // the clock wraps: what was below is now ahead
      assert tick == 0 && High(m, before) == {};
      Split(m, before);
      if |m| > 512 {
        IntervalSize(Low(m, before), before - 256, 257);
      }
      assert High(r, tick) <= Low(m, before);
      Smaller(High(r, tick), Low(m, before));
    }
  }

  lemma Smaller(s: set<nat>, t: set<nat>)
    requires s <= t
    ensures |s| <= |t|
  {
    assert t == s + (t - s);
  }

  lemma {:induction false} RunStaysBounded(pushes: seq<Push>)
    requires pushes != [] && Steady(pushes)
    ensures Bounded(PushedAll(map[], pushes), TickOf(pushes[|pushes| - 1].packet))
    decreases |pushes|
  {
    hide Bounded, Pushed, TickOf;
    var last, before := pushes[|pushes| - 1], pushes[..|pushes| - 1];
    if before == [] {
      FirstIsBounded(last.player, last.packet);
    } else {
      RunStaysBounded(before);
      var tick := TickOf(before[|before| - 1].packet);
      assert before[|before| - 1] == pushes[|pushes| - 2];
      PushStaysBounded(PushedAll(map[], before), tick, last.player, last.packet);
    }
  }

  lemma FirstIsBounded(player: Player, packet: Packet)
    ensures Bounded(Pushed(map[], player, packet), TickOf(packet))
  {
    var m: Store := map[];
    assert High(m, TickOf(packet)) == {};
    assert High(Pushed(m, player, packet), TickOf(packet)) == {};
    assert |Inserted(m, player, packet)| <= 1;
  }

  /** Whatever number of wraparounds a steady run has, the store never holds more than 769 ticks. */
  lemma SteadyRunIsSmall(pushes: seq<Push>, n: nat)
    requires Steady(pushes) && n <= |pushes|
    ensures |PushedAll(map[], pushes[..n])| <= 769
  {
    if n > 0 {
      RunStaysBounded(pushes[..n]);
      BoundedSize(PushedAll(map[], pushes[..n]), TickOf(pushes[n - 1].packet));
    }
  }

  // ----- the bound is reached -----

  function PacketAt(tick: nat): (p: Packet)
    requires tick < TICKS
    ensures TickOf(p) == tick
  {
    [tick % 0x100, tick / 0x100] + seq(50, _ => 0)
  }

  /** `n` pushes from tick 65024 on. */
  function Lap(n: nat): (p: seq<Push>)
    ensures |p| == n && forall i | 0 <= i < n :: TickOf(p[i].packet) == (65024 + i) % TICKS
  {
    if n == 0 then [] else Lap(n - 1) + [Push(0, PacketAt((65024 + (n - 1)) % TICKS))]
  }

  ghost predicate InLap(k: nat, n: nat) { k < TICKS && (65024 <= k < 65024 + n || k + 512 < n) }

  ghost function LapKeys(n: nat): set<nat> { set k: nat | k < TICKS && InLap(k, n) }

  lemma {:induction false} LapSize(n: nat)
    requires n <= 769
    ensures |LapKeys(n)| == n
  {
    if n > 0 {
      LapSize(n - 1);
      var last := (65024 + (n - 1)) % TICKS;
      assert LapKeys(n) == LapKeys(n - 1) + {last} && last !in LapKeys(n - 1);
    }
  }

  lemma {:induction false} LapFills(n: nat)
    requires n <= 769
    ensures PushedAll(map[], Lap(n)).Keys == LapKeys(n)
  {
    hide TickOf;
    if n > 0 {
      LapFills(n - 1);
      var m, tick := PushedAll(map[], Lap(n - 1)), (65024 + (n - 1)) % TICKS;
      assert Lap(n)[..n - 1] == Lap(n - 1);
      LapGrows(m, n, tick);
    }
  }

  lemma LapGrows(m: Store, n: nat, tick: nat)
    requires 0 < n <= 769 && m.Keys == LapKeys(n - 1) && tick == (65024 + (n - 1)) % TICKS
    ensures Pushed(m, 0, PacketAt(tick)).Keys == LapKeys(n)
  {
    hide TickOf, PacketAt;
    LapSize(n);
    var i := Inserted(m, 0, PacketAt(tick));
    assert i.Keys == LapKeys(n);
    assert |i| == |i.Keys|;
  }

  /** Across a wraparound, a steady run does fill the store with 769 ticks. */
  lemma BoundIsReached()
    ensures Steady(Lap(769)) && |PushedAll(map[], Lap(769))| == 769
  {
    hide TickOf, PushedAll, Lap;
    LapFills(769);
    LapSize(769);
    assert |PushedAll(map[], Lap(769))| == |PushedAll(map[], Lap(769)).Keys|;
  }

  // ----- looking up -----

  function ValidAt(m: Store, player: Player, key: nat): Option<Packet> {
    if key in m then m[key].Of(player) else None
  }

  function Back(tick: nat, age: nat): (key: nat)
    ensures key < TICKS
  {
    (tick - age) % TICKS
  }

  /** The packet of the least age between `age` and `limit`. */
  function Latest(m: Store, player: Player, tick: nat, age: nat, limit: nat): Option<Packet>
    decreases limit + 1 - age
  {
    if age > limit then None
    else if ValidAt(m, player, Back(tick, age)).Some? then ValidAt(m, player, Back(tick, age))
    else Latest(m, player, tick, age + 1, limit)
  }

  /** How old a packet may be. Without a window only the latest-before mode looks back at all, and only that
      mode looks back further than 4096 ticks. */
  function Limit(window: nat, latestBefore: bool): nat {
    if window == 0 then (if latestBefore then 0x7FFF else 0)
    else Min(window, if latestBefore then 0x7FFF else 4096)
  }

  function Min(x: nat, y: nat): nat { if x < y then x else y }

  /** The packet of the tick itself, or the latest one before it. */
  function Lookup(m: Store, player: Player, tick: nat, window: nat, latestBefore: bool): Option<Packet> {
    if ValidAt(m, player, tick).Some? then ValidAt(m, player, tick)
    else Latest(m, player, tick, 1, Limit(window, latestBefore))
  }

  /** Nothing between `from` and `to` exclusive is valid. */
  ghost predicate NoneBetween(m: Store, player: Player, tick: nat, from: nat, to: nat) {
    forall age | from <= age < to :: ValidAt(m, player, Back(tick, age)).None?
  }

  /** `Latest` is the valid packet of least age, if there is one. */
  lemma {:induction false} LatestIsLeast(m: Store, player: Player, tick: nat, from: nat, limit: nat, age: nat)
    requires from <= age <= limit + 1 && NoneBetween(m, player, tick, from, age)
    requires age <= limit ==> ValidAt(m, player, Back(tick, age)).Some?
    ensures Latest(m, player, tick, from, limit) == if age > limit then None else ValidAt(m, player, Back(tick, age))
    decreases age - from
  {
    hide Back, ValidAt;
    if from < age {
      LatestIsLeast(m, player, tick, from + 1, limit, age);
    }
  }

  lemma {:induction false} LeastAge(m: Store, player: Player, tick: nat, from: nat, limit: nat) returns (age: nat)
    requires from <= limit + 1
    ensures from <= age <= limit + 1 && NoneBetween(m, player, tick, from, age)
    ensures age <= limit ==> ValidAt(m, player, Back(tick, age)).Some?
    decreases limit + 1 - from
  {
    hide Back, ValidAt;
    if from > limit || ValidAt(m, player, Back(tick, from)).Some? {
      age := from;
    } else {
      age := LeastAge(m, player, tick, from + 1, limit);
    }
  }

  /** For windows of 1 to 4096 ticks, both modes find the same; beyond, exactly if there is a packet of at most
      4096 ticks of age, or none up to the window and 32767. */
  lemma ModesAgree(m: Store, player: Player, tick: nat, window: nat)
    requires ValidAt(m, player, tick).None? && window > 0
    ensures Lookup(m, player, tick, window, true) == Lookup(m, player, tick, window, false) <==>
            (window <= 4096 || Lookup(m, player, tick, 4096, false).Some?
             || NoneBetween(m, player, tick, 1, Min(window, 0x7FFF) + 1))
  {
    hide Back, ValidAt;
    var limit := Min(window, 0x7FFF);
    var age := LeastAge(m, player, tick, 1, limit);
    LatestIsLeast(m, player, tick, 1, limit, age);
    var near := Min(window, 4096);
    LatestIsLeast(m, player, tick, 1, near, Min(age, near + 1));
  }

  /** The exact packet is found for the ticks that pushes use; a tick above 65535 is never found exactly, and
      the packet of its low 16 bits is passed over. */
  lemma ExactTick(m: Store, player: Player, tick: nat, window: nat, latestBefore: bool)
    requires Sound(m)
    ensures tick < TICKS && ValidAt(m, player, tick).Some? ==>
              Lookup(m, player, tick, window, latestBefore) == ValidAt(m, player, tick)
    ensures tick >= TICKS ==>
              Lookup(m, player, tick, window, latestBefore) == Latest(m, player, tick % TICKS, 1, Limit(window, latestBefore))
  {
    if tick >= TICKS {
      assert ValidAt(m, player, tick).None?;
      SameBack(m, player, tick, 1, Limit(window, latestBefore));
    }
  }

  lemma {:induction false} SameBack(m: Store, player: Player, tick: nat, age: nat, limit: nat)
    ensures Latest(m, player, tick, age, limit) == Latest(m, player, tick % TICKS, age, limit)
    decreases limit + 1 - age
  {
    hide Back, ValidAt;
    if age <= limit {
      BackWraps(tick, age);
      SameBack(m, player, tick, age + 1, limit);
    }
  }

  lemma BackWraps(tick: nat, age: nat)
    ensures Back(tick, age) == Back(tick % TICKS, age)
  {
  }

  // ----- the bridge -----

  class LivePackets {
    var packets: Store

    constructor ()
      ensures packets == map[]
    {
      packets := map[];
    }

    method Push(player: nat, packet: Packet)
      modifies this
      ensures packets == if player > 1 then old(packets) else Pushed(old(packets), player, packet)
    {
      if player > 1 { return; }
      var tick := TickOf(packet);
      var entry := if tick in packets then packets[tick] else Entry(None, None);
      packets := packets[tick := entry.With(player, packet)];
      if |packets| > 512 {
        var keepFrom := if tick > 256 then tick - 256 else 0;
        EraseBelow(keepFrom);
      }
    }

    method EraseBelow(keepFrom: nat)
      modifies this
      ensures packets == map k | k in old(packets) && k >= keepFrom :: old(packets)[k]
    {
      var keys := packets.Keys;
      while keys != {}
        invariant keys <= old(packets).Keys
        invariant packets == map k | k in old(packets) && (k in keys || k >= keepFrom) :: old(packets)[k]
        decreases |keys|
      {
        var k :| k in keys;
        keys := keys - {k};
        if k < keepFrom {
          packets := packets - {k};
        }
      }
    }

    method Has(player: nat, tick: nat) returns (has: bool)
      ensures has <==> player <= 1 && ValidAt(packets, player, tick % TICKS).Some?
    {
      if player > 1 { return false; }
      has := tick % TICKS in packets && packets[tick % TICKS].Of(player).Some?;
    }

    /** The search of the latest-before mode: over all packets, in any order. */
    method Scan(player: Player, tick: nat, window: nat) returns (best: Option<Packet>)
      requires Sound(packets)
      ensures best == Latest(packets, player, tick, 1, Min(window, 0x7FFF))
    {
      var bestAge := 0x8000;
      best := None;
      var keys, limit := packets.Keys, Min(window, 0x7FFF);
      while keys != {}
        invariant keys <= packets.Keys
        invariant best.None? ==> bestAge == 0x8000
        invariant best.Some? ==> 1 <= bestAge <= limit && best == ValidAt(packets, player, Back(tick, bestAge))
        invariant forall k <- packets :: k !in keys && packets[k].Of(player).Some? ==>
                    Age(tick, k) == 0 || Age(tick, k) > limit || Age(tick, k) >= bestAge
        decreases |keys|
      {
        var k :| k in keys;
        keys := keys - {k};
        if packets[k].Of(player).Some? {
          var age := Age(tick, k);
          if age != 0 && age <= 0x7FFF && age < bestAge && age <= window {
            AgeAndBack(tick, k);
            bestAge := age;
            best := packets[k].Of(player);
          }
        }
      }
      forall age | 1 <= age <= limit && age < bestAge ensures ValidAt(packets, player, Back(tick, age)).None? {
        BackAndAge(tick, age);
      }
      LatestIsLeast(packets, player, tick, 1, limit, if best.Some? then bestAge else limit + 1);
    }

    method Find(player: nat, tick: nat, fallbackWindow: nat, latestBefore: bool) returns (found: Option<Packet>)
      requires Sound(packets)
      ensures found == if player > 1 then None else Lookup(packets, player, tick, fallbackWindow, latestBefore)
    {
      if player > 1 { return None; }
      if tick in packets && packets[tick].Of(player).Some? {
        return packets[tick].Of(player);
      }
      if fallbackWindow == 0 {
        if !latestBefore { return None; }
        found := Scan(player, tick, 0x7FFF);
        return;
      }
      if latestBefore {
        found := Scan(player, tick, fallbackWindow);
        if found.Some? { return; }
      }
      var window := Min(fallbackWindow, 4096);
      ghost var limit := Limit(fallbackWindow, latestBefore);
      for age := 1 to window + 1
        invariant Latest(packets, player, tick, age, window) == Latest(packets, player, tick, 1, window)
      {
        var fallbackTick := Back(tick, age);
        if fallbackTick in packets && packets[fallbackTick].Of(player).Some? {
          ShorterFinds(packets, player, tick, window, limit);
          return packets[fallbackTick].Of(player);
        }
      }
      ShorterFinds(packets, player, tick, window, limit);
      return None;
    }
  }

  lemma AgeAndBack(tick: nat, key: nat)
    requires key < TICKS
    ensures Back(tick, Age(tick, key)) == key
  {
  }

  lemma BackAndAge(tick: nat, age: nat)
    requires age < TICKS
    ensures Age(tick, Back(tick, age)) == age
  {
  }

  /** Looking back further finds what looking back less far finds. */
  lemma ShorterFinds(m: Store, player: Player, tick: nat, near: nat, limit: nat)
    requires near <= limit
    ensures Latest(m, player, tick, 1, near).Some? ==>
              Latest(m, player, tick, 1, limit) == Latest(m, player, tick, 1, near)
  {
    hide Back, ValidAt;
    var age := LeastAge(m, player, tick, 1, near);
    LatestIsLeast(m, player, tick, 1, near, age);
    if age <= near {
      LatestIsLeast(m, player, tick, 1, limit, age);
    }
  }
}
