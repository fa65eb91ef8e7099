/**
  The index of compiled blocks (src/ARMJIT.cpp, src/ARMJIT.h): block map, range lists with their
  `Code` bitmaps, fast lookup table, restore candidates, and the write protection of pages.
  One CPU, one fixed address mapping.

  The tables over local addresses are sparse maps; a missing entry is the empty one. A bitmap is the
  set of its chunk numbers.
*/
module CodeIndex {
  import opened CodeBlocks

  datatype AddressRange = AddressRange(blocks: seq<JitBlock>, code: set<nat>)

  /** A used entry of the fast lookup table: the address it answers to, and the code it leads to. */
  datatype FastEntry = FastEntry(tag: nat, block: JitBlock)

  type Ranges = map<nat, AddressRange>

  /** What a run depends on of the index and of memory. */
  datatype Index = Index(live: map<nat, JitBlock>, candidates: map<seq<u32>, JitBlock>, invalid: set<nat>, mem: Memory,
                         next: nat)

  function At(ranges: Ranges, r: nat): AddressRange {
    if r in ranges then ranges[r] else AddressRange([], {})
  }

  ghost predicate NoDuplicates<T(!new)>(s: seq<T>) {
    forall i, j :: 0 <= i < j < |s| ==> s[i] != s[j]
  }

  /** `TinyVector::Remove`: the last element takes the place of the removed one. */
  function Remove<T>(s: seq<T>, i: nat): seq<T>
    requires i < |s|
  {
    s[i := s[|s| - 1]][..|s| - 1]
  }

  lemma RemoveDropsOne<T(!new)>(s: seq<T>, i: nat)
    requires i < |s| && NoDuplicates(s)
    ensures NoDuplicates(Remove(s, i)) && forall x :: x in Remove(s, i) <==> x in s && x != s[i]
  {
    var t := Remove(s, i);
    forall x | x in s && x != s[i] ensures x in t {
      var k :| 0 <= k < |s| && s[k] == x;
      assert t[if k == |s| - 1 then i else k] == x;
    }
  }

  method RemoveByValue(s: seq<JitBlock>, needle: JitBlock) returns (t: seq<JitBlock>, removed: bool)
    requires NoDuplicates(s)
    ensures removed <==> needle in s
    ensures NoDuplicates(t) && forall x :: x in t <==> x in s && x != needle
  {
    for i := 0 to |s|
      invariant needle !in s[..i]
    {
      if s[i] == needle {
        RemoveDropsOne(s, i);
        return Remove(s, i), true;
      }
    }
    return s, false;
  }

  // ----- what every step keeps -----

  /** The block map leads to valid blocks that start where it says. */
  ghost predicate LiveOk(cfg: Config, live: map<nat, JitBlock>) {
    forall a <- live :: live[a].startAddr == a && live[a].Valid(cfg)
  }

  ghost predicate IsLive(live: map<nat, JitBlock>, b: JitBlock) {
    b.startAddr in live && live[b.startAddr] == b
  }

  /** A live block is listed exactly once in each of its ranges, and ranges list nothing else. */
  ghost predicate ListsOk(live: map<nat, JitBlock>, ranges: Ranges) {
    forall r: nat :: NoDuplicates(At(ranges, r).blocks)
      && forall b :: b in At(ranges, r).blocks <==> IsLive(live, b) && r in b.footprint.ranges
  }

  /** The bitmap of a range has the chunks of every block listed there, and is empty if none is;
      range `except` may be in between. */
  ghost predicate CodeOk(ranges: Ranges, except: int) {
    forall r: nat :: r != except ==>
      && (At(ranges, r).blocks == [] ==> At(ranges, r).code == {})
      && forall b :: b in At(ranges, r).blocks ==> MaskWithin(b, r, At(ranges, r).code)
  }

  ghost predicate MaskWithin(b: JitBlock, r: nat, code: set<nat>) {
    forall c: nat :: b.footprint.HasChunk(r, c) ==> c in code
  }

  /** A used entry of the fast table names a live block, by its address, where that block starts. */
  ghost predicate FastOk(live: map<nat, JitBlock>, fast: map<nat, FastEntry>) {
    forall k <- fast :: IsLive(live, fast[k].block) && fast[k].tag == fast[k].block.startAddr
      && fast[k].block.startAddrLocal / 2 == k
  }

  ghost predicate PageHasCode(ranges: Ranges, rangesPerPage: nat, page: nat)
    requires rangesPerPage > 0
  {
    exists r: nat :: r / rangesPerPage == page && At(ranges, r).blocks != []
  }

  /** A page is write-protected exactly if some range in it lists a block. */
  ghost predicate ProtectionOk(ranges: Ranges, rangesPerPage: nat, protected: set<nat>)
    requires rangesPerPage > 0
  {
    forall page: nat :: page in protected <==> PageHasCode(ranges, rangesPerPage, page)
  }

  /** Candidates are valid and filed under their hash. */
  ghost predicate CandidatesOk(cfg: Config, candidates: map<seq<u32>, JitBlock>) {
    forall h <- candidates :: candidates[h].instrHash == h && candidates[h].Valid(cfg)
  }

  /** What has become of an allocated block. */
  datatype Owner = Live(addr: nat) | Candidate(hash: seq<u32>) | Freed

  /** Every block ever allocated is live, a candidate or freed, and only one of these. */
  ghost predicate OwnedOk(live: map<nat, JitBlock>, candidates: map<seq<u32>, JitBlock>, owner: map<nat, Owner>, next: nat) {
    && (forall p: nat :: p < next <==> p in owner)
    && (forall a <- live :: live[a].ptr in owner && owner[live[a].ptr] == Live(a))
    && (forall h <- candidates :: candidates[h].ptr in owner && owner[candidates[h].ptr] == Candidate(h))
    && (forall p <- owner ::
         && (owner[p].Live? ==> owner[p].addr in live && live[owner[p].addr].ptr == p)
         && (owner[p].Candidate? ==> owner[p].hash in candidates && candidates[owner[p].hash].ptr == p))
  }

  // ----- dropping a block -----

  /** A range after block `b` has been taken off its list. */
  ghost predicate Shrunk(before: AddressRange, after: AddressRange, b: JitBlock) {
    && NoDuplicates(after.blocks)
    && (forall x :: x in after.blocks <==> x in before.blocks && x != b)
    && after.code == if after.blocks == [] then {} else before.code
  }

  /** The ranges after block `b` has been taken off the lists of the ranges in `rs`. */
  ghost predicate Dropped(before: Ranges, after: Ranges, b: JitBlock, rs: seq<nat>) {
    forall r: nat :: if r in rs then Shrunk(At(before, r), At(after, r), b) else At(after, r) == At(before, r)
  }

  lemma DropKeepsLists(live: map<nat, JitBlock>, before: Ranges, after: Ranges, b: JitBlock)
    requires IsLive(live, b) && ListsOk(live, before) && Dropped(before, after, b, b.footprint.ranges)
    ensures ListsOk(live - {b.startAddr}, after)
  {
    var live' := live - {b.startAddr};
    forall x | x != b ensures IsLive(live', x) <==> IsLive(live, x) {
    }
    forall r: nat ensures NoDuplicates(At(after, r).blocks)
      && forall x :: x in At(after, r).blocks <==> IsLive(live', x) && r in x.footprint.ranges
    {
      assert NoDuplicates(At(before, r).blocks)
        && forall x :: x in At(before, r).blocks <==> IsLive(live, x) && r in x.footprint.ranges;
      assert !IsLive(live', b);
    }
  }

  lemma DropKeepsCode(before: Ranges, after: Ranges, b: JitBlock, rs: seq<nat>, except: int)
    requires CodeOk(before, except) && Dropped(before, after, b, rs)
    ensures CodeOk(after, except)
  {
    forall r: nat | r != except
      ensures At(after, r).blocks == [] ==> At(after, r).code == {}
      ensures forall x :: x in At(after, r).blocks ==> MaskWithin(x, r, At(after, r).code)
    {
      if r in rs {
        assert Shrunk(At(before, r), At(after, r), b);
      } else {
        assert At(after, r) == At(before, r);
      }
    }
  }

  /** Protection follows when one range shrinks: its page is unprotected if no range there is left with a block. */
  lemma ShrinkKeepsProtection(before: Ranges, after: Ranges, rangesPerPage: nat, protected: set<nat>, r0: nat, b: JitBlock)
    requires rangesPerPage > 0 && ProtectionOk(before, rangesPerPage, protected)
    requires b in At(before, r0).blocks && Dropped(before, after, b, [r0])
    ensures r0 / rangesPerPage in protected
    ensures ProtectionOk(after, rangesPerPage,
      if PageHasCode(after, rangesPerPage, r0 / rangesPerPage) then protected else protected - {r0 / rangesPerPage})
  {
    assert PageHasCode(before, rangesPerPage, r0 / rangesPerPage);
    forall page: nat | page != r0 / rangesPerPage
      ensures PageHasCode(after, rangesPerPage, page) <==> PageHasCode(before, rangesPerPage, page)
    {
      assert forall r: nat :: r / rangesPerPage == page ==> At(after, r) == At(before, r);
    }
    if PageHasCode(after, rangesPerPage, r0 / rangesPerPage) {
    }
  }

  lemma MulMonotone(a: nat, b: nat, n: nat)
    requires a <= b
    ensures a * n <= b * n
  {
  }

  lemma PageOfRange(rangesPerPage: nat, page: nat, r: nat)
    requires rangesPerPage > 0
    ensures r / rangesPerPage == page <==> page * rangesPerPage <= r < page * rangesPerPage + rangesPerPage
  {
    var q := r / rangesPerPage;
    assert r == q * rangesPerPage + r % rangesPerPage;
    if q < page {
      MulMonotone(q + 1, page, rangesPerPage);
      assert (q + 1) * rangesPerPage == q * rangesPerPage + rangesPerPage;
    } else if q > page {
      MulMonotone(page + 1, q, rangesPerPage);
      assert (page + 1) * rangesPerPage == page * rangesPerPage + rangesPerPage;
    }
  }

  /** The owners after block `b` has become a candidate in place of the previous one with its hash. */
  ghost function Retired(candidates: map<seq<u32>, JitBlock>, owner: map<nat, Owner>, b: JitBlock): map<nat, Owner> {
    (if b.instrHash in candidates then owner[candidates[b.instrHash].ptr := Freed] else owner)[b.ptr := Candidate(b.instrHash)]
  }

  lemma RetireKeepsOwned(live: map<nat, JitBlock>, candidates: map<seq<u32>, JitBlock>, owner: map<nat, Owner>, next: nat, b: JitBlock)
    requires OwnedOk(live, candidates, owner, next) && IsLive(live, b)
    ensures OwnedOk(live - {b.startAddr}, candidates[b.instrHash := b], Retired(candidates, owner, b), next)
  {
    var live', candidates', owner' := live - {b.startAddr}, candidates[b.instrHash := b], Retired(candidates, owner, b);
    assert owner[b.ptr] == Live(b.startAddr);
    forall a <- live' ensures live'[a].ptr in owner' && owner'[live'[a].ptr] == Live(a) {
      assert a in live;
    }
    forall h <- candidates' ensures candidates'[h].ptr in owner' && owner'[candidates'[h].ptr] == Candidate(h) {
      assert h != b.instrHash ==> h in candidates;
    }
  }

  lemma DeleteKeepsOwned(live: map<nat, JitBlock>, candidates: map<seq<u32>, JitBlock>, owner: map<nat, Owner>, next: nat, b: JitBlock)
    requires OwnedOk(live, candidates, owner, next) && IsLive(live, b)
    ensures OwnedOk(live - {b.startAddr}, candidates, owner[b.ptr := Freed], next)
  {
    assert owner[b.ptr] == Live(b.startAddr);
  }

  lemma FileKeepsCandidates(cfg: Config, candidates: map<seq<u32>, JitBlock>, b: JitBlock)
    requires CandidatesOk(cfg, candidates) && b.Valid(cfg)
    ensures CandidatesOk(cfg, candidates[b.instrHash := b])
  {
  }

  lemma DropKeepsFast(live: map<nat, JitBlock>, fast: map<nat, FastEntry>, b: JitBlock)
    requires FastOk(live, fast) && IsLive(live, b)
    ensures FastOk(live - {b.startAddr}, fast - {b.startAddrLocal / 2})
  {
  }

  lemma ListedIsLive(cfg: Config, live: map<nat, JitBlock>, ranges: Ranges, r: nat, b: JitBlock)
    requires LiveOk(cfg, live) && ListsOk(live, ranges) && b in At(ranges, r).blocks
    ensures IsLive(live, b) && b.Valid(cfg) && b.footprint.Valid() && r in b.footprint.ranges
    ensures forall r' <- b.footprint.ranges :: b in At(ranges, r').blocks && NoDuplicates(At(ranges, r').blocks)
  {
  }

  /** The live blocks that touch no word of range `r`. */
  function Outside(live: map<nat, JitBlock>, r: nat): map<nat, JitBlock> {
    map a | a in live && r !in live[a].footprint.ranges :: live[a]
  }

  /** Candidates are former candidates or blocks that were live. */
  ghost predicate OnlyRetires(live: map<nat, JitBlock>, before: map<seq<u32>, JitBlock>, after: map<seq<u32>, JitBlock>) {
    forall h <- after :: (h in before && after[h] == before[h]) || after[h] in live.Values
  }

  /** A block dropped by a write to `localAddr` becomes a candidate, unless that address is a literal
      of it or another block with its hash was dropped with it. */
  ghost predicate Retires(before: map<nat, JitBlock>, after: map<nat, JitBlock>,
                          candidates: map<seq<u32>, JitBlock>, localAddr: nat)
  {
    forall a <- before :: a !in after && !LoadsLiteral(before[a].entryPoint, localAddr)
      && (forall a' <- before :: a' != a && RangeOf(localAddr) in before[a'].footprint.ranges
           ==> before[a'].instrHash != before[a].instrHash)
      ==> before[a].instrHash in candidates && candidates[before[a].instrHash] == before[a]
  }

  /** Some live block has loaded the literal at `addr`. */
  ghost predicate LiteralLive(live: map<nat, JitBlock>, addr: nat) {
    exists a :: a in live && LoadsLiteral(live[a].entryPoint, addr)
  }

  /** The invalid literals after a store to `localAddr`: that address becomes one if a live block has loaded it. */
  ghost predicate Invalidates(live: map<nat, JitBlock>, before: set<nat>, after: set<nat>, localAddr: nat) {
    after == before + if LiteralLive(live, localAddr) then {localAddr} else {}
  }

  /** The block has a word in the `size` bytes around `addr`. */
  ghost predicate WordNear(b: JitBlock, addr: nat, size: nat)
    requires size > 0
  {
    exists x :: x in b.entryPoint && x.addr / size == addr / size
  }

  /** What a store takes out of the index: every block with a word in the same 16 bytes, and no block without one
      in the same 512 bytes. */
  ghost predicate TakesOut(before: map<nat, JitBlock>, after: map<nat, JitBlock>, addr: nat) {
    && (forall a <- after :: a in before && after[a] == before[a])
    && (forall a <- before :: WordNear(before[a], addr, 16) ==> a !in after)
    && (forall a <- before :: a !in after ==> WordNear(before[a], addr, 512))
  }

  lemma StoreTakesOut(cfg: Config, before: map<nat, JitBlock>, ranges: Ranges, localAddr: nat)
    requires LiveOk(cfg, before) && ListsOk(before, ranges) && CodeOk(ranges, -1)
    ensures TakesOut(before, if ChunkOf(localAddr) in At(ranges, RangeOf(localAddr)).code
                             then Outside(before, RangeOf(localAddr)) else before, localAddr)
  {
    hide ListsOk, CodeOk, Build, RangeOf, ChunkOf;
    var after := if ChunkOf(localAddr) in At(ranges, RangeOf(localAddr)).code
                 then Outside(before, RangeOf(localAddr)) else before;
    forall a | a in before ensures WordNear(before[a], localAddr, 16) ==> a !in after {
      if x :| x in before[a].entryPoint && x.addr / 16 == localAddr / 16 {
        ChunksAre(x.addr, localAddr);
        WordsAreMarked(cfg, before, ranges, a, x);
        RangesAreExact(before[a].entryPoint, RangeOf(localAddr));
      }
    }
    forall a | a in before && a !in after ensures WordNear(before[a], localAddr, 512) {
      RangesAreExact(before[a].entryPoint, RangeOf(localAddr));
      var x :| x in before[a].entryPoint && RangeOf(x.addr) == RangeOf(localAddr);
      ChunksAre(x.addr, localAddr);
    }
  }

  /** Where no chunk is marked, no live block has loaded a literal. */
  lemma NoLiteralThere(cfg: Config, live: map<nat, JitBlock>, ranges: Ranges, localAddr: nat)
    requires LiveOk(cfg, live) && ListsOk(live, ranges) && CodeOk(ranges, -1)
    requires ChunkOf(localAddr) !in At(ranges, RangeOf(localAddr)).code
    ensures !LiteralLive(live, localAddr)
  {
    hide RangeOf, ChunkOf, LiveOk, ListsOk, CodeOk;
    forall a | a in live ensures !LoadsLiteral(live[a].entryPoint, localAddr) {
      forall x | x in live[a].entryPoint ensures !(x.Literal? && x.addr == localAddr) {
        WordsAreMarked(cfg, live, ranges, a, x);
      }
    }
  }

  /** Some block of `before` that is not in `after` has loaded the literal at `addr`. */
  ghost predicate LiteralGone(before: map<nat, JitBlock>, after: map<nat, JitBlock>, addr: nat) {
    exists a :: a in before && a !in after && LoadsLiteral(before[a].entryPoint, addr)
  }

  /** One more block goes. */
  lemma DropTakesLiteral(start: map<nat, JitBlock>, live: map<nat, JitBlock>, b: JitBlock, addr: nat)
    requires IsLive(live, b) && b.startAddr in start && start[b.startAddr] == b
    ensures LiteralGone(start, live - {b.startAddr}, addr) <==>
            LiteralGone(start, live, addr) || LoadsLiteral(b.entryPoint, addr)
  {
    hide LoadsLiteral;
    var live' := live - {b.startAddr};
    if LiteralGone(start, live, addr) {
      var a :| a in start && a !in live && LoadsLiteral(start[a].entryPoint, addr);
      assert a !in live';
    }
    if LoadsLiteral(b.entryPoint, addr) {
      assert b.startAddr !in live';
    }
  }

  lemma NothingGone(live: map<nat, JitBlock>, addr: nat)
    ensures !LiteralGone(live, live, addr)
  {
  }

  /** A block that has loaded the literal at `localAddr` is in its range, so it goes. */
  lemma LiteralsGo(cfg: Config, before: map<nat, JitBlock>, after: map<nat, JitBlock>, localAddr: nat)
    requires LiveOk(cfg, before) && after == Outside(before, RangeOf(localAddr))
    ensures LiteralGone(before, after, localAddr) <==> LiteralLive(before, localAddr)
  {
    hide RangeOf, Build;
    if LiteralLive(before, localAddr) {
      var a :| a in before && LoadsLiteral(before[a].entryPoint, localAddr);
      var x :| x in before[a].entryPoint && x.Literal? && x.addr == localAddr;
      BuildCovers(before[a].entryPoint, x);
      assert a !in after;
    }
  }

  lemma NothingToRetire(live: map<nat, JitBlock>, candidates: map<seq<u32>, JitBlock>, localAddr: nat)
    ensures Retires(live, live, candidates, localAddr)
  {
  }

  lemma DropRetires(start: map<nat, JitBlock>, before: map<nat, JitBlock>, candidates: map<seq<u32>, JitBlock>,
                    candidates': map<seq<u32>, JitBlock>, localAddr: nat, b: JitBlock)
    requires Retires(start, before, candidates, localAddr) && IsLive(before, b)
    requires forall a <- before :: a in start && before[a] == start[a]
    requires RangeOf(localAddr) in b.footprint.ranges
    requires candidates' == if LoadsLiteral(b.entryPoint, localAddr) then candidates else candidates[b.instrHash := b]
    ensures Retires(start, before - {b.startAddr}, candidates', localAddr)
  {
  }

  /** How far the blocks in the range of `localAddr` have been dropped, from `x` on. */
  ghost predicate Dropping(x: Index, live: map<nat, JitBlock>, candidates: map<seq<u32>, JitBlock>, invalid: set<nat>,
                           localAddr: nat)
  {
    && (forall a <- live :: a in x.live && live[a] == x.live[a])
    && (forall a <- x.live :: a in live || RangeOf(localAddr) in x.live[a].footprint.ranges)
    && invalid == x.invalid + (if LiteralGone(x.live, live, localAddr) then {localAddr} else {})
    && OnlyRetires(x.live, x.candidates, candidates) && Retires(x.live, live, candidates, localAddr)
  }

  lemma DroppingStarts(x: Index, localAddr: nat)
    ensures Dropping(x, x.live, x.candidates, x.invalid, localAddr)
  {
    hide LoadsLiteral;
    NothingGone(x.live, localAddr);
    NothingToRetire(x.live, x.candidates, localAddr);
  }

  lemma DroppingGoesOn(x: Index, live: map<nat, JitBlock>, candidates: map<seq<u32>, JitBlock>, invalid: set<nat>,
                       candidates': map<seq<u32>, JitBlock>, invalid': set<nat>, localAddr: nat, b: JitBlock)
    requires Dropping(x, live, candidates, invalid, localAddr) && IsLive(live, b)
    requires RangeOf(localAddr) in b.footprint.ranges
    requires candidates' == if LoadsLiteral(b.entryPoint, localAddr) then candidates else candidates[b.instrHash := b]
    requires invalid' == invalid + if LoadsLiteral(b.entryPoint, localAddr) then {localAddr} else {}
    ensures Dropping(x, live - {b.startAddr}, candidates', invalid', localAddr)
  {
    hide LoadsLiteral, LiteralGone, Retires, RangeOf;
    DropTakesLiteral(x.live, live, b, localAddr);
    DropRetires(x.live, live, candidates, candidates', localAddr, b);
  }

  lemma DroppingEnds(cfg: Config, x: Index, live: map<nat, JitBlock>, ranges: Ranges, candidates: map<seq<u32>, JitBlock>,
                     invalid: set<nat>, localAddr: nat)
    requires Dropping(x, live, candidates, invalid, localAddr) && LiveOk(cfg, x.live) && LiveOk(cfg, live)
    requires ListsOk(live, ranges) && At(ranges, RangeOf(localAddr)).blocks == []
    ensures live == Outside(x.live, RangeOf(localAddr)) && Invalidates(x.live, x.invalid, invalid, localAddr)
    ensures OnlyRetires(x.live, x.candidates, candidates) && Retires(x.live, live, candidates, localAddr)
  {
    hide LoadsLiteral, LiteralGone, LiteralLive, Retires, RangeOf, JitBlock.Valid;
    forall a | a in live ensures RangeOf(localAddr) !in live[a].footprint.ranges {
      LiveStartsThere(cfg, live, a);
      assert live[a] !in At(ranges, RangeOf(localAddr)).blocks;
    }
    LiteralsGo(cfg, x.live, live, localAddr);
  }

  lemma ClearKeeps(live: map<nat, JitBlock>, before: Ranges, after: Ranges, rangesPerPage: nat, protected: set<nat>, r0: nat)
    requires rangesPerPage > 0 && ListsOk(live, before) && CodeOk(before, -1) && ProtectionOk(before, rangesPerPage, protected)
    requires after == before[r0 := At(before, r0).(code := {})]
    ensures ListsOk(live, after) && CodeOk(after, r0) && ProtectionOk(after, rangesPerPage, protected)
  {
    assert forall r: nat :: At(after, r).blocks == At(before, r).blocks;
    assert forall r: nat :: r != r0 ==> At(after, r) == At(before, r);
    forall page: nat ensures PageHasCode(after, rangesPerPage, page) <==> PageHasCode(before, rangesPerPage, page) {
    }
  }

  lemma LiveStartsThere(cfg: Config, live: map<nat, JitBlock>, a: nat)
    requires LiveOk(cfg, live) && a in live
    ensures IsLive(live, live[a])
  {
  }

  /** Every live block is what memory holds now. */
  ghost predicate AllFresh(live: map<nat, JitBlock>, mem: Memory) {
    forall a <- live :: Fresh(live[a].entryPoint, mem)
  }

  /** No live block was compiled from the word at `localAddr`. */
  ghost predicate Spared(live: map<nat, JitBlock>, localAddr: nat) {
    forall a, x :: a in live && x in live[a].entryPoint ==> x.addr / 4 != localAddr / 4
  }

  /** A write to a chunk that is not marked in its range's bitmap touches no word of a live block. */
  lemma UnmarkedIsSpared(cfg: Config, live: map<nat, JitBlock>, ranges: Ranges, localAddr: nat)
    requires LiveOk(cfg, live) && ListsOk(live, ranges) && CodeOk(ranges, -1)
    requires ChunkOf(localAddr) !in At(ranges, RangeOf(localAddr)).code
    ensures Spared(live, localAddr)
  {
    forall a, x | a in live && x in live[a].entryPoint ensures x.addr / 4 != localAddr / 4 {
      WordsAreMarked(cfg, live, ranges, a, x);
      if x.addr / 4 == localAddr / 4 {
        SameWordSameChunk(x.addr, localAddr);
      }
    }
  }

  lemma UnmarkedWriteKeepsFresh(cfg: Config, live: map<nat, JitBlock>, ranges: Ranges, mem: Memory, localAddr: nat, value: u32)
    requires LiveOk(cfg, live) && ListsOk(live, ranges) && CodeOk(ranges, -1) && AllFresh(live, mem)
    requires ChunkOf(localAddr) !in At(ranges, RangeOf(localAddr)).code
    ensures AllFresh(live, WriteWord(mem, localAddr, value))
  {
    UnmarkedIsSpared(cfg, live, ranges, localAddr);
    SparedStaysFresh(live, mem, localAddr, value);
  }

  lemma SparedStaysFresh(live: map<nat, JitBlock>, mem: Memory, localAddr: nat, value: u32)
    requires Spared(live, localAddr) && AllFresh(live, mem)
    ensures AllFresh(live, WriteWord(mem, localAddr, value))
  {
    forall a, x | a in live && x in live[a].entryPoint
      ensures x.Seen(ReadWord(WriteWord(mem, localAddr, value), x.addr)) == x.value
    {
      assert Fresh(live[a].entryPoint, mem);
    }
  }

  /** Every word that a live block was compiled from is marked in the bitmap of its range. */
  lemma WordsAreMarked(cfg: Config, live: map<nat, JitBlock>, ranges: Ranges, a: nat, x: Access)
    requires LiveOk(cfg, live) && ListsOk(live, ranges) && CodeOk(ranges, -1)
    requires a in live && x in live[a].entryPoint
    ensures ChunkOf(x.addr) in At(ranges, RangeOf(x.addr)).code
  {
    hide Build, RangeOf, ChunkOf;
    var b := live[a];
    BuildCovers(b.entryPoint, x);
    assert IsLive(live, b) && RangeOf(x.addr) in b.footprint.ranges;
    assert MaskWithin(b, RangeOf(x.addr), At(ranges, RangeOf(x.addr)).code);
  }

  lemma SameWordSameChunk(a: nat, b: nat)
    requires a / 4 == b / 4
    ensures RangeOf(a) == RangeOf(b) && ChunkOf(a) == ChunkOf(b)
  {
    var q := a / 4;
    assert a / 512 == q / 128 && b / 512 == q / 128;
    assert a % 512 / 16 == q % 128 / 4 && b % 512 / 16 == q % 128 / 4;
  }

  lemma RestoreKeepsOwned(live: map<nat, JitBlock>, candidates: map<seq<u32>, JitBlock>, owner: map<nat, Owner>, next: nat, h: seq<u32>)
    requires OwnedOk(live, candidates, owner, next) && h in candidates && candidates[h].startAddr !in live
    ensures var b := candidates[h];
      OwnedOk(live[b.startAddr := b], candidates - {h}, owner[b.ptr := Live(b.startAddr)], next)
  {
    assert owner[candidates[h].ptr] == Candidate(h);
  }

  lemma FreeKeepsOwned(live: map<nat, JitBlock>, candidates: map<seq<u32>, JitBlock>, owner: map<nat, Owner>, next: nat, h: seq<u32>)
    requires OwnedOk(live, candidates, owner, next) && h in candidates
    ensures OwnedOk(live, candidates - {h}, owner[candidates[h].ptr := Freed], next)
  {
    assert owner[candidates[h].ptr] == Candidate(h);
  }

  lemma AllocateKeepsOwned(live: map<nat, JitBlock>, candidates: map<seq<u32>, JitBlock>, owner: map<nat, Owner>, next: nat, b: JitBlock)
    requires OwnedOk(live, candidates, owner, next) && b.startAddr !in live && b.ptr == next
    ensures OwnedOk(live[b.startAddr := b], candidates, owner[next := Live(b.startAddr)], next + 1)
  {
    assert next !in owner;
  }

  // ----- adding a block -----

  function Grown(range: AddressRange, b: JitBlock, mask: set<nat>): AddressRange {
    AddressRange(range.blocks + [b], range.code + mask)
  }

  /** The ranges after `b` has been listed in its first `n` ranges and marked in their bitmaps. */
  ghost predicate Listed(before: Ranges, after: Ranges, b: JitBlock, n: nat)
    requires b.footprint.Valid() && n <= |b.footprint.ranges|
  {
    var ranges, masks := b.footprint.ranges, b.footprint.masks;
    && (forall j :: 0 <= j < n ==> At(after, ranges[j]) == Grown(At(before, ranges[j]), b, masks[j]))
    && (forall r: nat :: r !in ranges[..n] ==> At(after, r) == At(before, r))
  }

  lemma ListKeepsLists(live: map<nat, JitBlock>, before: Ranges, after: Ranges, b: JitBlock)
    requires ListsOk(live, before) && b.startAddr !in live && b.footprint.Valid()
    requires Listed(before, after, b, |b.footprint.ranges|)
    ensures ListsOk(live[b.startAddr := b], after)
  {
    var live' := live[b.startAddr := b];
    var ranges := b.footprint.ranges;
    forall x ensures IsLive(live', x) <==> IsLive(live, x) || x == b {
    }
    forall r: nat ensures NoDuplicates(At(after, r).blocks)
      && forall x :: x in At(after, r).blocks <==> IsLive(live', x) && r in x.footprint.ranges
    {
      assert NoDuplicates(At(before, r).blocks)
        && forall x :: x in At(before, r).blocks <==> IsLive(live, x) && r in x.footprint.ranges;
      assert !IsLive(live, b);
      if r in ranges {
        var j :| 0 <= j < |ranges| && ranges[j] == r;
        assert At(after, r).blocks == At(before, r).blocks + [b];
      } else {
        assert r !in ranges[..|ranges|];
      }
    }
  }

  lemma ListKeepsCode(before: Ranges, after: Ranges, b: JitBlock)
    requires CodeOk(before, -1) && b.footprint.Valid() && Listed(before, after, b, |b.footprint.ranges|)
    ensures CodeOk(after, -1)
  {
    var ranges, masks := b.footprint.ranges, b.footprint.masks;
    forall r: nat
      ensures At(after, r).blocks == [] ==> At(after, r).code == {}
      ensures forall x :: x in At(after, r).blocks ==> MaskWithin(x, r, At(after, r).code)
    {
      if r in ranges {
        var j :| 0 <= j < |ranges| && ranges[j] == r;
        assert At(after, r) == AddressRange(At(before, r).blocks + [b], At(before, r).code + masks[j]);
        forall c: nat | b.footprint.HasChunk(r, c) ensures c in At(after, r).code {
          var i :| 0 <= i < |ranges| && ranges[i] == r && c in masks[i];
          assert i == j;
        }
      } else {
        assert r !in ranges[..|ranges|];
      }
    }
  }

  /** Protection follows when one range gains a block. */
  lemma ListKeepsProtection(before: Ranges, after: Ranges, rangesPerPage: nat, protected: set<nat>, r0: nat)
    requires rangesPerPage > 0 && ProtectionOk(before, rangesPerPage, protected)
    requires At(after, r0).blocks != [] && forall r: nat :: r != r0 ==> At(after, r) == At(before, r)
    ensures ProtectionOk(after, rangesPerPage, protected + {r0 / rangesPerPage})
  {
    assert PageHasCode(after, rangesPerPage, r0 / rangesPerPage);
    forall page: nat | page != r0 / rangesPerPage
      ensures PageHasCode(after, rangesPerPage, page) <==> PageHasCode(before, rangesPerPage, page)
    {
      assert forall r: nat :: r / rangesPerPage == page ==> At(after, r) == At(before, r);
    }
  }

  /** The block that `CompileBlock` enters for `code`: the candidate with its hash, if that passes the tests. */
  function Chosen(cfg: Config, candidates: map<seq<u32>, JitBlock>, next: nat, blockAddr: nat, code: seq<Access>): JitBlock {
    if InstrValues(code) in candidates && MayRestore(candidates[InstrValues(code)], blockAddr, code)
    then candidates[InstrValues(code)]
    else MakeBlock(cfg, next, blockAddr, code)
  }

  lemma EnterKeepsLive(cfg: Config, live: map<nat, JitBlock>, fast: map<nat, FastEntry>, b: JitBlock)
    requires LiveOk(cfg, live) && FastOk(live, fast) && b.Valid(cfg) && b.startAddr !in live
    ensures LiveOk(cfg, live[b.startAddr := b])
    ensures FastOk(live[b.startAddr := b], fast[b.startAddrLocal / 2 := FastEntry(b.startAddr, b)])
  {
  }

  // ----- deleting everything -----

  lemma ResetKeepsOwned(live: map<nat, JitBlock>, candidates: map<seq<u32>, JitBlock>, owner: map<nat, Owner>, next: nat)
    requires OwnedOk(live, candidates, owner, next)
    ensures OwnedOk(map[], map[], map p | p in owner :: Freed, next)
  {
  }

  /** Clearing the ranges of all live blocks clears all ranges. */
  lemma AllListedCleared(live: map<nat, JitBlock>, before: Ranges, after: Ranges)
    requires ListsOk(live, before) && CodeOk(before, -1)
    requires forall r: nat :: At(after, r) == At(before, r) || At(after, r) == AddressRange([], {})
    requires forall a, r: nat :: a in live && r in live[a].footprint.ranges ==> At(after, r) == AddressRange([], {})
    ensures forall r: nat :: At(after, r) == AddressRange([], {})
  {
    forall r: nat ensures At(after, r) == AddressRange([], {}) {
      if At(before, r).blocks != [] {
        var b := At(before, r).blocks[0];
        assert b in At(before, r).blocks;
        assert IsLive(live, b) && r in b.footprint.ranges;
      }
    }
  }

  lemma EmptyIsConsistent(cfg: Config, ranges: Ranges, rangesPerPage: nat)
    requires rangesPerPage > 0 && forall r: nat :: At(ranges, r) == AddressRange([], {})
    ensures LiveOk(cfg, map[]) && CandidatesOk(cfg, map[]) && FastOk(map[], map[])
    ensures ListsOk(map[], ranges) && CodeOk(ranges, -1) && ProtectionOk(ranges, rangesPerPage, {})
  {
  }

  // ----- runs -----

  /** What happens in a run: the CPU arrives somewhere, with certain instructions to compile there, something is
      stored, or the cache is reset. */
  datatype Event = Arrive(addr: nat, addrs: seq<nat>) | Store(localAddr: nat, value: u32) | Reset

  predicate Possible(e: Event) { e.Arrive? ==> e.addrs != [] && e.addrs[0] == e.addr }

  /** What the code reads on an arrival. */
  function CodeFor(cfg: Config, x: Index, e: Event): seq<Access>
    requires e.Arrive?
  {
    Accesses(cfg, x.mem, x.invalid, e.addrs)
  }

  /** One event takes the index from `x` to `y`. */
  ghost predicate Steps(cfg: Config, x: Index, e: Event, y: Index) {
    match e
    case Arrive(addr, addrs) =>
      && addr in y.live && y.invalid == x.invalid && y.mem == x.mem
      && (addr in x.live ==> y.live == x.live && y.candidates == x.candidates)
      && (addr !in x.live ==>
        && y.live == x.live[addr := Chosen(cfg, x.candidates, x.next, addr, CodeFor(cfg, x, e))]
        && y.candidates == x.candidates - {InstrValues(CodeFor(cfg, x, e))})
    case Store(localAddr, value) =>
      && y.mem == WriteWord(x.mem, localAddr, value) && Invalidates(x.live, x.invalid, y.invalid, localAddr)
      && (forall a <- y.live :: a in x.live && y.live[a] == x.live[a])
      && Spared(y.live, localAddr) && OnlyRetires(x.live, x.candidates, y.candidates)
    case Reset => y.live == map[] && y.candidates == map[] && y.invalid == {} && y.mem == x.mem
  }

  /** A run: the states between the events. */
  ghost predicate IsRun(cfg: Config, events: seq<Event>, run: seq<Index>) {
    |run| == |events| + 1 && forall i :: 0 <= i < |events| ==> Steps(cfg, run[i], events[i], run[i + 1])
  }

  /** If a candidate is restored for `code`, what it was compiled from follows from what `code` has read. */
  ghost predicate RestoresWithin(candidates: map<seq<u32>, JitBlock>, blockAddr: nat, code: seq<Access>) {
    (InstrValues(code) in candidates && MayRestore(candidates[InstrValues(code)], blockAddr, code))
      ==> Within(candidates[InstrValues(code)].entryPoint, code)
  }

  lemma ChosenFrom(cfg: Config, candidates: map<seq<u32>, JitBlock>, next: nat, blockAddr: nat, code: seq<Access>, mem: Memory)
    ensures Fresh(code, mem) && RestoresWithin(candidates, blockAddr, code)
      ==> Fresh(Chosen(cfg, candidates, next, blockAddr, code).entryPoint, mem)
  {
    hide MayRestore, InstrValues, See;
    var b := Chosen(cfg, candidates, next, blockAddr, code);
    if Fresh(code, mem) && RestoresWithin(candidates, blockAddr, code) && b.entryPoint != code {
      RestoreIsSoundIff(b.entryPoint, code, mem);
    }
  }

  /** The arrival compiles nothing, or restores only what follows from the words just read. */
  ghost predicate Safe(cfg: Config, x: Index, e: Event) {
    e.Arrive? && e.addr !in x.live ==> RestoresWithin(x.candidates, e.addr, CodeFor(cfg, x, e))
  }

  lemma StepKeepsFresh(cfg: Config, x: Index, e: Event, y: Index)
    requires Steps(cfg, x, e, y) && Safe(cfg, x, e) && AllFresh(x.live, x.mem)
    ensures AllFresh(y.live, y.mem)
  {
    hide Accesses, Chosen, Fresh, RestoresWithin, Spared, InstrValues;
    match e
    case Arrive(addr, addrs) =>
      AccessesAreFresh(cfg, x.mem, x.invalid, addrs);
      ChosenFrom(cfg, x.candidates, x.next, addr, CodeFor(cfg, x, e), x.mem);
    case Store(localAddr, value) => SparedStaysFresh(y.live, x.mem, localAddr, value);
    case Reset =>
  }

  /** In every run whose restores are safe, every block that could be run is at all times what memory holds. */
  lemma {:induction false} SafeRunIsFresh(cfg: Config, events: seq<Event>, run: seq<Index>, n: nat)
    requires IsRun(cfg, events, run) && n <= |events| && AllFresh(run[0].live, run[0].mem)
    requires forall i :: 0 <= i < n ==> Safe(cfg, run[i], events[i])
    ensures AllFresh(run[n].live, run[n].mem)
  {
    hide AllFresh, Steps, Safe;
    if n > 0 {
      SafeRunIsFresh(cfg, events, run, n - 1);
      StepKeepsFresh(cfg, run[n - 1], events[n - 1], run[n]);
    }
  }

  // ----- runs along paths -----

  /** Every block that is live or may be restored was compiled along its path. */
  ghost predicate AllOnPaths(cfg: Config, live: map<nat, JitBlock>, candidates: map<seq<u32>, JitBlock>, invalid: set<nat>) {
    && (forall a <- live :: live[a].startAddr == a && live[a].Valid(cfg) && PathCode(cfg, a, live[a].entryPoint, invalid))
    && (forall h <- candidates ::
         candidates[h].Valid(cfg) && PathCode(cfg, candidates[h].startAddr, candidates[h].entryPoint, invalid))
  }

  /** An arrival compiles along its path: where the block goes depends on nothing but the words in it. */
  predicate OnPath(cfg: Config, mem: Memory, e: Event) {
    e.Arrive? ==> e.addrs == Path(cfg, mem, e.addr, |e.addrs|)
  }

  lemma StoreKeepsPaths(cfg: Config, live: map<nat, JitBlock>, candidates: map<seq<u32>, JitBlock>, invalid: set<nat>,
                        live': map<nat, JitBlock>, candidates': map<seq<u32>, JitBlock>, invalid': set<nat>)
    requires AllOnPaths(cfg, live, candidates, invalid) && invalid <= invalid'
    requires forall a <- live' :: a in live && live'[a] == live[a]
    requires OnlyRetires(live, candidates, candidates')
    ensures AllOnPaths(cfg, live', candidates', invalid')
  {
    hide PathCode, JitBlock.Valid;
    forall b: JitBlock | PathCode(cfg, b.startAddr, b.entryPoint, invalid)
      ensures PathCode(cfg, b.startAddr, b.entryPoint, invalid')
    {
      PathCodeStays(cfg, b.startAddr, b.entryPoint, invalid, invalid');
    }
    forall h <- candidates'
      ensures candidates'[h].Valid(cfg) && PathCode(cfg, candidates'[h].startAddr, candidates'[h].entryPoint, invalid)
    {
      if candidates'[h] in live.Values {
        var a :| a in live && live[a] == candidates'[h];
      }
    }
  }

  /** The block that is entered for instructions along a path is what memory holds, restored or not. */
  lemma ChosenIsFresh(cfg: Config, live: map<nat, JitBlock>, candidates: map<seq<u32>, JitBlock>, invalid: set<nat>,
                      next: nat, mem: Memory, start: nat, n: nat)
    requires AllOnPaths(cfg, live, candidates, invalid)
    ensures var code := Accesses(cfg, mem, invalid, Path(cfg, mem, start, n));
      var b := Chosen(cfg, candidates, next, start, code);
      && b.entryPoint == code && Fresh(code, mem)
      && b.startAddr == start && b.Valid(cfg) && PathCode(cfg, start, b.entryPoint, invalid)
      && RestoresWithin(candidates, start, code)
  {
    hide MayRestore, Accesses, Path, PathCode, JitBlock.Valid, InstrValues;
    ReadAlongPath(cfg, mem, invalid, start, n);
    var code := Accesses(cfg, mem, invalid, Path(cfg, mem, start, n));
    AccessesAreFresh(cfg, mem, invalid, Path(cfg, mem, start, n));
    if InstrValues(code) in candidates && MayRestore(candidates[InstrValues(code)], start, code) {
      PathRestoreIsSound(cfg, candidates[InstrValues(code)], mem, invalid, start, n);
      RestoreTests(candidates[InstrValues(code)], start, code);
      RestoreIsSoundIff(code, code, mem);
    }
  }

  lemma StepKeepsPaths(cfg: Config, x: Index, e: Event, y: Index)
    requires Steps(cfg, x, e, y) && OnPath(cfg, x.mem, e) && AllOnPaths(cfg, x.live, x.candidates, x.invalid)
    ensures Safe(cfg, x, e) && AllOnPaths(cfg, y.live, y.candidates, y.invalid)
  {
    hide Accesses, Chosen, RestoresWithin, Spared, InstrValues, PathCode, Path, JitBlock.Valid, OnlyRetires;
    match e
    case Arrive(addr, addrs) => ChosenIsFresh(cfg, x.live, x.candidates, x.invalid, x.next, x.mem, addr, |addrs|);
    case Store(_, _) => StoreKeepsPaths(cfg, x.live, x.candidates, x.invalid, y.live, y.candidates, y.invalid);
    case Reset =>
  }

  /** Memory after some events. */
  function MemoryAfter(mem: Memory, events: seq<Event>): Memory {
    if events == [] then mem
    else
      var before, e := MemoryAfter(mem, events[..|events| - 1]), events[|events| - 1];
      if e.Store? then WriteWord(before, e.localAddr, e.value) else before
  }

  /** Every arrival compiles along the path that its block has by then. */
  predicate AlongPaths(cfg: Config, mem: Memory, events: seq<Event>) {
    forall i :: 0 <= i < |events| ==> OnPath(cfg, MemoryAfter(mem, events[..i]), events[i])
  }

  /** Restores are safe in every run along paths. */
  lemma {:induction false} RunAlongPathsIsSafe(cfg: Config, events: seq<Event>, run: seq<Index>, n: nat)
    requires IsRun(cfg, events, run) && n <= |events| && AlongPaths(cfg, run[0].mem, events)
    requires AllOnPaths(cfg, run[0].live, run[0].candidates, run[0].invalid)
    ensures AllOnPaths(cfg, run[n].live, run[n].candidates, run[n].invalid)
    ensures run[n].mem == MemoryAfter(run[0].mem, events[..n])
    ensures forall i :: 0 <= i < n ==> Safe(cfg, run[i], events[i])
  {
    hide AllOnPaths, Safe, OnPath, Accesses, Spared, OnlyRetires, Chosen, InstrValues, WriteWord;
    if n > 0 {
      RunAlongPathsIsSafe(cfg, events, run, n - 1);
      assert Steps(cfg, run[n - 1], events[n - 1], run[n]);
      StepKeepsPaths(cfg, run[n - 1], events[n - 1], run[n]);
      assert events[..n][..n - 1] == events[..n - 1];
    }
  }

  // ----- literals that are written -----

  /** After a store to a literal of a live block, nothing that is read on an arrival before the next reset has that
      literal: instructions that load it are compiled as loads. */
  lemma {:induction false} StoredLiteralIsNotLoaded(cfg: Config, events: seq<Event>, run: seq<Index>, i: nat, n: nat)
    requires IsRun(cfg, events, run) && i < n <= |events| && events[i].Store?
    requires LiteralLive(run[i].live, events[i].localAddr) && forall k :: i < k < n ==> !events[k].Reset?
    ensures events[i].localAddr in run[n].invalid
    ensures n < |events| && events[n].Arrive? ==> !LoadsLiteral(CodeFor(cfg, run[n], events[n]), events[i].localAddr)
  {
    hide Accesses, LoadsLiteral, LiteralLive, Spared, OnlyRetires, Chosen, InstrValues, WriteWord;
    assert Steps(cfg, run[n - 1], events[n - 1], run[n]);
    if i < n - 1 {
      StoredLiteralIsNotLoaded(cfg, events, run, i, n - 1);
    }
    if n < |events| && events[n].Arrive? {
      InvalidIsNotLoaded(cfg, run[n].mem, run[n].invalid, events[n].addrs, events[i].localAddr);
    }
  }

  lemma StepKeepsLiteralOut(cfg: Config, x: Index, e: Event, y: Index, addr: nat)
    requires Steps(cfg, x, e, y) && OnPath(cfg, x.mem, e) && AllOnPaths(cfg, x.live, x.candidates, x.invalid)
    requires !LiteralLive(x.live, addr) && addr in x.invalid
    ensures !LiteralLive(y.live, addr)
  {
    hide Accesses, LoadsLiteral, Path, AllOnPaths, OnlyRetires, Chosen, InstrValues, WriteWord, RestoresWithin, JitBlock.Valid,
      PathCode, Spared;
    if e.Arrive? && e.addr !in x.live {
      InvalidIsNotLoaded(cfg, x.mem, x.invalid, e.addrs, addr);
      ChosenIsFresh(cfg, x.live, x.candidates, x.invalid, x.next, x.mem, e.addr, |e.addrs|);
    }
  }

  /** Along paths, neither does any block that could be run. */
  lemma {:induction false} StoredLiteralIsNotLive(cfg: Config, events: seq<Event>, run: seq<Index>, i: nat, n: nat)
    requires IsRun(cfg, events, run) && i < n <= |events| && events[i].Store?
    requires LiteralLive(run[i].live, events[i].localAddr) && forall k :: i < k < n ==> !events[k].Reset?
    requires AlongPaths(cfg, run[0].mem, events) && AllOnPaths(cfg, run[0].live, run[0].candidates, run[0].invalid)
    ensures !LiteralLive(run[n].live, events[i].localAddr)
  {
    hide LoadsLiteral, LiteralLive, AllOnPaths, Steps, OnPath, Spared;
    var addr := events[i].localAddr;
    if i == n - 1 {
      StoreSpares(cfg, run[i], events[i], run[n]);
      SparedHasNoLiteral(run[n].live, addr);
    } else {
      StoredLiteralIsNotLive(cfg, events, run, i, n - 1);
      StoredLiteralIsNotLoaded(cfg, events, run, i, n - 1);
      RunAlongPathsIsSafe(cfg, events, run, n - 1);
      StepKeepsLiteralOut(cfg, run[n - 1], events[n - 1], run[n], addr);
    }
  }

  lemma StoreSpares(cfg: Config, x: Index, e: Event, y: Index)
    requires Steps(cfg, x, e, y) && e.Store?
    ensures Spared(y.live, e.localAddr)
  {
  }

  lemma SparedHasNoLiteral(live: map<nat, JitBlock>, addr: nat)
    requires Spared(live, addr)
    ensures !LiteralLive(live, addr)
  {
  }

  /** Only such stores make a literal invalid. */
  lemma {:induction false} InvalidWasStored(cfg: Config, events: seq<Event>, run: seq<Index>, n: nat, addr: nat)
    requires IsRun(cfg, events, run) && n <= |events| && addr in run[n].invalid
    ensures addr in run[0].invalid || exists i :: 0 <= i < n && StoresLiteral(run[i], events[i], addr)
  {
    hide Accesses, LiteralLive, Spared, OnlyRetires, Chosen, InstrValues, WriteWord;
    if n > 0 {
      assert Steps(cfg, run[n - 1], events[n - 1], run[n]);
      if addr in run[n - 1].invalid {
        InvalidWasStored(cfg, events, run, n - 1, addr);
      } else {
        assert StoresLiteral(run[n - 1], events[n - 1], addr);
      }
    }
  }

  /** The event is a store to `addr`, which a live block has loaded as a literal. */
  ghost predicate StoresLiteral(x: Index, e: Event, addr: nat) {
    e.Store? && e.localAddr == addr && LiteralLive(x.live, addr)
  }

  /** Without branch optimisations all runs are along paths. */
  lemma StraightRunIsAlongPaths(cfg: Config, mem: Memory, step: nat, events: seq<Event>)
    requires forall addrs, values :: addrs != [] ==> cfg.next(addrs, values) == addrs[|addrs| - 1] + step
    requires forall e <- events :: e.Arrive? ==> e.addrs == Straight(e.addr, step, |e.addrs|)
    ensures AlongPaths(cfg, mem, events)
  {
    forall i | 0 <= i < |events| && events[i].Arrive? ensures OnPath(cfg, MemoryAfter(mem, events[..i]), events[i]) {
      StraightIsPath(cfg, MemoryAfter(mem, events[..i]), events[i].addr, step, |events[i].addrs|);
      assert events[i] in events;
    }
  }

  class ARMJIT {
    const cfg: Config
    const rangesPerPage: nat
    var JitBlocks: map<nat, JitBlock>
    var RestoreCandidates: map<seq<u32>, JitBlock>
    var CodeRanges: Ranges
    var FastBlockLookup: map<nat, FastEntry>
    var Protected: set<nat>
    var InvalidLiterals: set<nat>
    var Mem: Memory
    var nextPtr: nat
    ghost var owner: map<nat, Owner>

    /** Everything fits together, but for the bitmap of range `except`. */
    ghost predicate Consistent(except: int)
      reads this
    {
      && rangesPerPage > 0
      && LiveOk(cfg, JitBlocks) && CandidatesOk(cfg, RestoreCandidates)
      && ListsOk(JitBlocks, CodeRanges) && CodeOk(CodeRanges, except)
      && FastOk(JitBlocks, FastBlockLookup)
      && ProtectionOk(CodeRanges, rangesPerPage, Protected)
      && OwnedOk(JitBlocks, RestoreCandidates, owner, nextPtr)
    }

    ghost predicate Valid()
      reads this
    {
      Consistent(-1)
    }

    /** What a run depends on. */
    ghost function Now(): Index
      reads this
    {
      Index(JitBlocks, RestoreCandidates, InvalidLiterals, Mem, nextPtr)
    }

    constructor (cfg: Config, rangesPerPage: nat)
      requires rangesPerPage > 0
      ensures Valid() && this.cfg == cfg && this.rangesPerPage == rangesPerPage
      ensures JitBlocks == map[] && RestoreCandidates == map[] && InvalidLiterals == {} && FastBlockLookup == map[]
      ensures Mem == map[] && nextPtr == 0
    {
      this.cfg, this.rangesPerPage := cfg, rangesPerPage;
      JitBlocks, RestoreCandidates, CodeRanges, FastBlockLookup := map[], map[], map[], map[];
      Protected, InvalidLiterals, owner, nextPtr, Mem := {}, {}, map[], 0, map[];
    }

    method PageContainsCode(page: nat) returns (found: bool)
      requires rangesPerPage > 0
      ensures found <==> PageHasCode(CodeRanges, rangesPerPage, page)
    {
      for i := 0 to rangesPerPage
        invariant forall r: nat :: page * rangesPerPage <= r < page * rangesPerPage + i ==> At(CodeRanges, r).blocks == []
      {
        if At(CodeRanges, page * rangesPerPage + i).blocks != [] {
          PageOfRange(rangesPerPage, page, page * rangesPerPage + i);
          return true;
        }
      }
      forall r: nat | r / rangesPerPage == page ensures At(CodeRanges, r).blocks == [] {
        PageOfRange(rangesPerPage, page, r);
      }
      return false;
    }

    /** Changes the protection of a page; it is never asked for what holds already. */
    method SetCodeProtection(page: nat, protect: bool)
      requires page in Protected <==> !protect
      modifies this`Protected
      ensures Protected == if protect then old(Protected) + {page} else old(Protected) - {page}
    {
      Protected := if protect then Protected + {page} else Protected - {page};
    }

    /** Files a dead block for later; a candidate with the same hash is deleted. */
    method RetireJitBlock(b: JitBlock)
      modifies this`RestoreCandidates, this`owner
      ensures RestoreCandidates == old(RestoreCandidates)[b.instrHash := b]
      ensures owner == Retired(old(RestoreCandidates), old(owner), b)
    {
      if b.instrHash in RestoreCandidates {
        owner := owner[RestoreCandidates[b.instrHash].ptr := Freed];
      }
      owner := owner[b.ptr := Candidate(b.instrHash)];
      RestoreCandidates := RestoreCandidates[b.instrHash := b];
    }

    /** Takes `b` off the list of one range, and unprotects the page if that was the last block there. */
    method Unlist(r: nat, b: JitBlock)
      requires rangesPerPage > 0 && ProtectionOk(CodeRanges, rangesPerPage, Protected)
      requires b in At(CodeRanges, r).blocks && NoDuplicates(At(CodeRanges, r).blocks)
      modifies this`CodeRanges, this`Protected
      ensures ProtectionOk(CodeRanges, rangesPerPage, Protected)
      ensures Dropped(old(CodeRanges), CodeRanges, b, [r])
    {
      var range := At(CodeRanges, r);
      var blocks, removed := RemoveByValue(range.blocks, b);
      CodeRanges := CodeRanges[r := AddressRange(blocks, if blocks == [] then {} else range.code)];
      assert Dropped(old(CodeRanges), CodeRanges, b, [r]);
      ShrinkKeepsProtection(old(CodeRanges), CodeRanges, rangesPerPage, Protected, r, b);
      if blocks == [] {
        var inUse := PageContainsCode(r / rangesPerPage);
        if !inUse {
          SetCodeProtection(r / rangesPerPage, false);
        }
      }
    }

    /** The search for the mask of the touched range. The mask it is compared with is the one just
        found, so a listed block is always hit. */
    method IsHit(block: JitBlock, r: nat) returns (invalidated: bool)
      requires block.Valid(cfg) && r in block.footprint.ranges
      ensures invalidated
    {
      var ranges, masks := block.footprint.ranges, block.footprint.masks;
      invalidated := false;
      var mask: set<nat> := {};
      var j := 0;
      while j < |ranges|
        invariant j <= |ranges| && r !in ranges[..j] && !invalidated
      {
        if ranges[j] == r {
          mask := masks[j];
          invalidated := masks[j] * mask != {};
          assert masks[j] * mask == masks[j];
          break;
        }
        j := j + 1;
      }
    }

    /** Takes a block off the lists of all its ranges, the touched one first. */
    method UnlistEverywhere(r0: nat, block: JitBlock)
      requires rangesPerPage > 0 && ProtectionOk(CodeRanges, rangesPerPage, Protected)
      requires r0 in block.footprint.ranges && block.footprint.Valid()
      requires forall r <- block.footprint.ranges :: block in At(CodeRanges, r).blocks && NoDuplicates(At(CodeRanges, r).blocks)
      modifies this`CodeRanges, this`Protected
      ensures ProtectionOk(CodeRanges, rangesPerPage, Protected)
      ensures Dropped(old(CodeRanges), CodeRanges, block, block.footprint.ranges)
    {
      hide ProtectionOk, NoDuplicates;
      var ranges := block.footprint.ranges;
      ghost var before := CodeRanges;
      Unlist(r0, block);
      for j := 0 to |ranges|
        invariant Dropped(before, CodeRanges, block, [r0] + ranges[..j])
        invariant ProtectionOk(CodeRanges, rangesPerPage, Protected)
      {
        if ranges[j] != r0 {
          assert At(CodeRanges, ranges[j]) == At(before, ranges[j]);
          Unlist(ranges[j], block);
        }
      }
    }

    /** Drops one block that is listed in the range of `localAddr`. */
    method DropBlock(localAddr: nat, block: JitBlock)
      requires Consistent(RangeOf(localAddr)) && block in At(CodeRanges, RangeOf(localAddr)).blocks
      requires At(CodeRanges, RangeOf(localAddr)).code == {}
      modifies this`CodeRanges, this`Protected, this`InvalidLiterals, this`FastBlockLookup, this`JitBlocks,
        this`RestoreCandidates, this`owner
      ensures Consistent(RangeOf(localAddr)) && At(CodeRanges, RangeOf(localAddr)).code == {}
      ensures IsLive(old(JitBlocks), block) && JitBlocks == old(JitBlocks) - {block.startAddr}
      ensures RangeOf(localAddr) in block.footprint.ranges
      ensures InvalidLiterals == old(InvalidLiterals) + if LoadsLiteral(block.entryPoint, localAddr) then {localAddr} else {}
      ensures RestoreCandidates == if LoadsLiteral(block.entryPoint, localAddr) then old(RestoreCandidates)
                                   else old(RestoreCandidates)[block.instrHash := block]
    {
      hide ProtectionOk, FastOk, CodeOk, Footprint.Valid, OwnedOk, CandidatesOk, Retired;
      var r0 := RangeOf(localAddr);
      ghost var before := CodeRanges;
      ListedIsLive(cfg, JitBlocks, CodeRanges, r0, block);
      UnlistEverywhere(r0, block);
      DropKeepsLists(JitBlocks, before, CodeRanges, block);
      DropKeepsCode(before, CodeRanges, block, block.footprint.ranges, r0);

      LiteralAddrsAre(block.entryPoint, localAddr);
      var literalInvalidation := localAddr in block.literals;
      if literalInvalidation {
        InvalidLiterals := InvalidLiterals + {localAddr};
      }
      DropKeepsFast(JitBlocks, FastBlockLookup, block);
      FastBlockLookup := FastBlockLookup - {block.startAddrLocal / 2};
      RetireKeepsOwned(JitBlocks, RestoreCandidates, owner, nextPtr, block);
      DeleteKeepsOwned(JitBlocks, RestoreCandidates, owner, nextPtr, block);
      FileKeepsCandidates(cfg, RestoreCandidates, block);
      JitBlocks := JitBlocks - {block.startAddr};
      if !literalInvalidation {
        RetireJitBlock(block);
      } else {
        owner := owner[block.ptr := Freed];
      }
    }

    /** Drops every block listed in the 512-byte range of `localAddr`. */
    method InvalidateByAddr(localAddr: nat)
      requires Valid()
      modifies this`CodeRanges, this`Protected, this`InvalidLiterals, this`FastBlockLookup, this`JitBlocks,
        this`RestoreCandidates, this`owner
      ensures Valid() && At(CodeRanges, RangeOf(localAddr)) == AddressRange([], {})
      ensures JitBlocks == Outside(old(JitBlocks), RangeOf(localAddr))
      ensures Invalidates(old(JitBlocks), old(InvalidLiterals), InvalidLiterals, localAddr)
      ensures OnlyRetires(old(JitBlocks), old(RestoreCandidates), RestoreCandidates)
      ensures Retires(old(JitBlocks), JitBlocks, RestoreCandidates, localAddr)
    {
      hide ProtectionOk, FastOk, LiveOk, OwnedOk, CandidatesOk, Footprint.Valid, Retires, LoadsLiteral, LiteralLive, Dropping,
        OnlyRetires;
      ghost var start := Now();
      DroppingStarts(start, localAddr);
      var r := RangeOf(localAddr);
      CodeRanges := CodeRanges[r := At(CodeRanges, r).(code := {})];
      ClearKeeps(JitBlocks, old(CodeRanges), CodeRanges, rangesPerPage, Protected, r);
      while At(CodeRanges, r).blocks != []
        invariant Consistent(r) && At(CodeRanges, r).code == {}
        invariant Dropping(start, JitBlocks, RestoreCandidates, InvalidLiterals, localAddr)
        decreases |JitBlocks|
      {
        var block := At(CodeRanges, r).blocks[0];
        ListedIsLive(cfg, JitBlocks, CodeRanges, r, block);
        var invalidated := IsHit(block, r);
        assert invalidated;
        ghost var before := Now();
        DropBlock(localAddr, block);
        DroppingGoesOn(start, before.live, before.candidates, before.invalid, RestoreCandidates, InvalidLiterals, localAddr, block);
      }
      DroppingEnds(cfg, start, JitBlocks, CodeRanges, RestoreCandidates, InvalidLiterals, localAddr);
    }

    method CheckAndInvalidate(localAddr: nat)
      requires Valid()
      modifies this`CodeRanges, this`Protected, this`InvalidLiterals, this`FastBlockLookup, this`JitBlocks,
        this`RestoreCandidates, this`owner
      ensures Valid() && ChunkOf(localAddr) !in At(CodeRanges, RangeOf(localAddr)).code
      ensures JitBlocks == if ChunkOf(localAddr) in At(old(CodeRanges), RangeOf(localAddr)).code
                           then Outside(old(JitBlocks), RangeOf(localAddr)) else old(JitBlocks)
      ensures Invalidates(old(JitBlocks), old(InvalidLiterals), InvalidLiterals, localAddr)
      ensures OnlyRetires(old(JitBlocks), old(RestoreCandidates), RestoreCandidates)
      ensures Retires(old(JitBlocks), JitBlocks, RestoreCandidates, localAddr)
    {
      hide LoadsLiteral, LiteralLive, Retires;
      NothingToRetire(JitBlocks, RestoreCandidates, localAddr);
      if ChunkOf(localAddr) in At(CodeRanges, RangeOf(localAddr)).code {
        InvalidateByAddr(localAddr);
      } else {
        NoLiteralThere(cfg, JitBlocks, CodeRanges, localAddr);
      }
    }

    /** A store to memory that may hold code. */
    method GuardedWrite(localAddr: nat, value: u32)
      requires Valid()
      modifies this
      ensures Valid() && Mem == WriteWord(old(Mem), localAddr, value) && Spared(JitBlocks, localAddr)
      ensures TakesOut(old(JitBlocks), JitBlocks, localAddr)
      ensures old(AllFresh(JitBlocks, Mem)) ==> AllFresh(JitBlocks, Mem)
      ensures JitBlocks == if ChunkOf(localAddr) in At(old(CodeRanges), RangeOf(localAddr)).code
                           then Outside(old(JitBlocks), RangeOf(localAddr)) else old(JitBlocks)
      ensures nextPtr == old(nextPtr) && Invalidates(old(JitBlocks), old(InvalidLiterals), InvalidLiterals, localAddr)
      ensures OnlyRetires(old(JitBlocks), old(RestoreCandidates), RestoreCandidates)
      ensures Retires(old(JitBlocks), JitBlocks, RestoreCandidates, localAddr)
    {
      hide TakesOut;
      StoreTakesOut(cfg, JitBlocks, CodeRanges, localAddr);
      CheckAndInvalidate(localAddr);
      UnmarkedIsSpared(cfg, JitBlocks, CodeRanges, localAddr);
      if AllFresh(JitBlocks, Mem) {
        SparedStaysFresh(JitBlocks, Mem, localAddr, value);
      }
      Mem := WriteWord(Mem, localAddr, value);
    }

    /** Lists a block in its ranges and protects their pages. */
    method ListEverywhere(block: JitBlock)
      requires rangesPerPage > 0 && ProtectionOk(CodeRanges, rangesPerPage, Protected) && block.footprint.Valid()
      modifies this`CodeRanges, this`Protected
      ensures ProtectionOk(CodeRanges, rangesPerPage, Protected)
      ensures Listed(old(CodeRanges), CodeRanges, block, |block.footprint.ranges|)
    {
      var ranges, masks := block.footprint.ranges, block.footprint.masks;
      for j := 0 to |ranges|
        invariant ProtectionOk(CodeRanges, rangesPerPage, Protected)
        invariant Listed(old(CodeRanges), CodeRanges, block, j)
      {
        var r := ranges[j];
        ghost var before, protected := CodeRanges, Protected;
        var inUse := PageContainsCode(r / rangesPerPage);
        if !inUse {
          SetCodeProtection(r / rangesPerPage, true);
        }
        assert Protected == protected + {r / rangesPerPage};
        assert At(CodeRanges, r) == At(old(CodeRanges), r);
        var range := At(CodeRanges, r);
        CodeRanges := CodeRanges[r := AddressRange(range.blocks + [block], range.code + masks[j])];
        ListKeepsProtection(before, CodeRanges, rangesPerPage, protected, r);
      }
    }

    /** Fetches the instructions at `addrs` and the literals they load, and records what was touched. */
    method Fetch(addrs: seq<nat>)
      returns (code: seq<Access>, instrValues: seq<u32>, literalValues: seq<u32>, literals: seq<nat>, footprint: Footprint)
      ensures code == Accesses(cfg, Mem, InvalidLiterals, addrs) && footprint == Build(code)
      ensures instrValues == InstrValues(code) && literalValues == LiteralValues(code) && literals == LiteralAddrs(code)
    {
      hide Accesses, Build, InstrValues, LiteralValues, LiteralAddrs, TouchFetch, TouchLiteral;
      NothingRead(cfg, Mem, InvalidLiterals);
      code, instrValues, literalValues, literals := [], [], [], [];
      var ranges, masks := [], [];
      for i := 0 to |addrs|
        invariant code == Accesses(cfg, Mem, InvalidLiterals, addrs[..i])
        invariant Footprint(ranges, masks) == Build(code) && (i == 0 <==> ranges == [])
        invariant instrValues == InstrValues(code) && literalValues == LiteralValues(code) && literals == LiteralAddrs(code)
      {
        OneMoreInstr(cfg, Mem, InvalidLiterals, addrs, i);
        var translatedAddr := cfg.localise(addrs[i]);
        var value := Value(cfg, Mem, addrs[i]);
        var instr := Access.Fetch(translatedAddr, cfg.part(addrs[i]), value);
        TouchIsNotEmpty(Build(code), instr);
        AppendAccess(code, instr);
        instrValues := instrValues + [value];
        ranges, masks := RecordFetch(ranges, masks, i == 0, translatedAddr);
        code := code + [instr];
        match cfg.literalOf(value, addrs[i]) {
          case None =>
          case Some(l) =>
            var literalAddr := cfg.localise(l);
            if literalAddr !in InvalidLiterals {
              var literal := Literal(literalAddr, ReadWord(Mem, literalAddr));
              TouchIsNotEmpty(Build(code), literal);
              AppendAccess(code, literal);
              ranges, masks := RecordLiteral(ranges, masks, literalAddr);
              literalValues := literalValues + [literal.value];
              literals := literals + [literalAddr];
              code := code + [literal];
            }
        }
      }
      assert addrs[..|addrs|] == addrs;
      footprint := Footprint(ranges, masks);
    }

    /** Compares a candidate with what has just been fetched, range by range. */
    method SameRanges(prev: JitBlock, footprint: Footprint) returns (same: bool)
      requires prev.footprint.Valid() && footprint.Valid()
      ensures same <==> prev.footprint == footprint
    {
      if |prev.footprint.ranges| != |footprint.ranges| {
        return false;
      }
      for j := 0 to |footprint.ranges|
        invariant prev.footprint.ranges[..j] == footprint.ranges[..j] && prev.footprint.masks[..j] == footprint.masks[..j]
      {
        if prev.footprint.ranges[j] != footprint.ranges[j] || prev.footprint.masks[j] != footprint.masks[j] {
          return false;
        }
      }
      assert prev.footprint.ranges == prev.footprint.ranges[..|footprint.ranges|];
      assert prev.footprint.masks == prev.footprint.masks[..|footprint.ranges|];
      return true;
    }

    /** Takes the candidate with the hash of `code` out; it becomes the block, or is deleted for a new one. */
    method ChooseBlock(blockAddr: nat, code: seq<Access>, instrHash: seq<u32>, literalHash: seq<u32>, literals: seq<nat>,
                       footprint: Footprint) returns (block: JitBlock)
      requires OwnedOk(JitBlocks, RestoreCandidates, owner, nextPtr) && CandidatesOk(cfg, RestoreCandidates)
      requires blockAddr !in JitBlocks && footprint == Build(code)
      requires instrHash == InstrValues(code) && literalHash == LiteralValues(code) && literals == LiteralAddrs(code)
      modifies this`RestoreCandidates, this`owner, this`nextPtr
      ensures block == Chosen(cfg, old(RestoreCandidates), old(nextPtr), blockAddr, code)
      ensures block.startAddr == blockAddr && block.Valid(cfg) && block.footprint.Valid()
      ensures RestoreCandidates == old(RestoreCandidates) - {instrHash} && CandidatesOk(cfg, RestoreCandidates)
      ensures OwnedOk(JitBlocks[blockAddr := block], RestoreCandidates, owner, nextPtr)
    {
      hide Build, OwnedOk;
      var mayRestore := false;
      if instrHash in RestoreCandidates {
        block := RestoreCandidates[instrHash];
        mayRestore := block.startAddr == blockAddr && block.literalHash == literalHash;
        if mayRestore {
          mayRestore := SameRanges(block, footprint);
        }
        if mayRestore {
          RestoreKeepsOwned(JitBlocks, RestoreCandidates, owner, nextPtr, instrHash);
          owner := owner[block.ptr := Live(blockAddr)];
        } else {
          FreeKeepsOwned(JitBlocks, RestoreCandidates, owner, nextPtr, instrHash);
          owner := owner[block.ptr := Freed];
        }
        RestoreCandidates := RestoreCandidates - {instrHash};
      }
      assert RestoreCandidates == old(RestoreCandidates) - {instrHash};
      if !mayRestore {
        block := JitBlock(nextPtr, blockAddr, cfg.localise(blockAddr), instrHash, literalHash, footprint, literals, code);
        AllocateKeepsOwned(JitBlocks, RestoreCandidates, owner, nextPtr, block);
        owner := owner[nextPtr := Live(blockAddr)];
        nextPtr := nextPtr + 1;
      }
    }

    /** Makes the block at `blockAddr` reachable, compiling the instructions at `addrs` if there is none yet. */
    method CompileBlock(blockAddr: nat, addrs: seq<nat>)
      requires Valid() && addrs != [] && addrs[0] == blockAddr
      modifies this`CodeRanges, this`Protected, this`FastBlockLookup, this`JitBlocks, this`RestoreCandidates,
        this`owner, this`nextPtr
      ensures Valid() && blockAddr in JitBlocks
      ensures FastBlockLookup
        == old(FastBlockLookup)[cfg.localise(blockAddr) / 2 := FastEntry(blockAddr, JitBlocks[blockAddr])]
      ensures blockAddr in old(JitBlocks) ==> JitBlocks == old(JitBlocks) && RestoreCandidates == old(RestoreCandidates)
      ensures blockAddr !in old(JitBlocks) ==> var code := Accesses(cfg, Mem, InvalidLiterals, addrs);
        && JitBlocks == old(JitBlocks)[blockAddr := Chosen(cfg, old(RestoreCandidates), old(nextPtr), blockAddr, code)]
        && RestoreCandidates == old(RestoreCandidates) - {InstrValues(code)}
    {
      hide ProtectionOk, OwnedOk, Build, CodeOk, ListsOk, Chosen, Accesses;
      var localAddr := cfg.localise(blockAddr);
      if blockAddr in JitBlocks {
        // under a fixed mapping the block is where it was; it only lost its fast entry
        assert JitBlocks[blockAddr].startAddrLocal == localAddr;
        FastBlockLookup := FastBlockLookup[localAddr / 2 := FastEntry(blockAddr, JitBlocks[blockAddr])];
        return;
      }
      var code, instrHash, literalHash, literals, footprint := Fetch(addrs);
      var block := ChooseBlock(blockAddr, code, instrHash, literalHash, literals, footprint);
      ghost var before := CodeRanges;
      ListEverywhere(block);
      ListKeepsLists(JitBlocks, before, CodeRanges, block);
      ListKeepsCode(before, CodeRanges, block);
      EnterKeepsLive(cfg, JitBlocks, FastBlockLookup, block);
      JitBlocks := JitBlocks[blockAddr := block];
      FastBlockLookup := FastBlockLookup[localAddr / 2 := FastEntry(blockAddr, block)];
    }

    /** The code that the dispatcher runs for `addr`, if the fast table has it. */
    method LookUpBlock(addr: nat) returns (entry: Option<seq<Access>>)
      requires Valid()
      ensures entry.Some? ==> addr in JitBlocks && entry.value == JitBlocks[addr].entryPoint
      ensures entry.Some? <==> cfg.localise(addr) / 2 in FastBlockLookup && FastBlockLookup[cfg.localise(addr) / 2].tag == addr
    {
      var k := cfg.localise(addr) / 2;
      if k in FastBlockLookup && FastBlockLookup[k].tag == addr {
        return Some(FastBlockLookup[k].block.entryPoint);
      }
      return None;
    }

    /** Deletes everything. */
    method ResetBlockCache()
      requires Valid()
      modifies this`CodeRanges, this`Protected, this`InvalidLiterals, this`FastBlockLookup, this`JitBlocks,
        this`RestoreCandidates, this`owner
      ensures Valid() && JitBlocks == map[] && RestoreCandidates == map[] && FastBlockLookup == map[]
      ensures InvalidLiterals == {} && forall r: nat :: At(CodeRanges, r) == AddressRange([], {})
    {
      hide OwnedOk, ProtectionOk, FastOk, CandidatesOk, NoDuplicates, Retires;
      ResetKeepsOwned(JitBlocks, RestoreCandidates, owner, nextPtr);
      Protected, InvalidLiterals, FastBlockLookup, RestoreCandidates := {}, {}, map[], map[];
      owner := map p | p in owner :: Freed;
      var remaining := JitBlocks.Keys;
      while remaining != {}
        invariant remaining <= JitBlocks.Keys
        invariant forall r: nat :: At(CodeRanges, r) == At(old(CodeRanges), r) || At(CodeRanges, r) == AddressRange([], {})
        invariant forall a, r: nat ::
          a in JitBlocks.Keys && a !in remaining && r in JitBlocks[a].footprint.ranges ==> At(CodeRanges, r) == AddressRange([], {})
        modifies this`CodeRanges
      {
        var a :| a in remaining;
        ClearRanges(JitBlocks[a].footprint.ranges);
        remaining := remaining - {a};
      }
      AllListedCleared(JitBlocks, old(CodeRanges), CodeRanges);
      JitBlocks := map[];
      EmptyIsConsistent(cfg, CodeRanges, rangesPerPage);
    }

    method ClearRanges(ranges: seq<nat>)
      modifies this`CodeRanges
      ensures forall r: nat :: At(CodeRanges, r) == if r in ranges then AddressRange([], {}) else At(old(CodeRanges), r)
    {
      for j := 0 to |ranges|
        invariant forall r: nat :: At(CodeRanges, r) == if r in ranges[..j] then AddressRange([], {}) else At(old(CodeRanges), r)
      {
        assert ranges[..j + 1] == ranges[..j] + [ranges[j]];
        CodeRanges := CodeRanges[ranges[j] := AddressRange([], {})];
      }
    }

    /** The code run on arrival at `addr`, with any instructions to compile there. It is what memory
        holds if what a candidate restored for it was compiled from follows from what was just read. */
    method Dispatch(addr: nat, addrs: seq<nat>) returns (code: seq<Access>)
      requires Valid() && addrs != [] && addrs[0] == addr
      modifies this`CodeRanges, this`Protected, this`FastBlockLookup, this`JitBlocks, this`RestoreCandidates,
        this`owner, this`nextPtr
      ensures Valid() && addr in JitBlocks && code == JitBlocks[addr].entryPoint
      ensures Steps(cfg, old(Now()), Arrive(addr, addrs), Now())
      ensures old(AllFresh(JitBlocks, Mem)) ==> (Fresh(code, Mem) <==> AllFresh(JitBlocks, Mem))
      ensures old(AllFresh(JitBlocks, Mem)) && Safe(cfg, old(Now()), Arrive(addr, addrs)) ==> Fresh(code, Mem)
    {
      hide Consistent, Accesses, Chosen, Fresh, Safe;
      ghost var before := Now();
      var entry := LookUpBlock(addr);
      if entry.Some? {
        return entry.value;
      }
      CompileBlock(addr, addrs);
      code := JitBlocks[addr].entryPoint;
      if AllFresh(before.live, before.mem) && Safe(cfg, before, Arrive(addr, addrs)) {
        StepKeepsFresh(cfg, before, Arrive(addr, addrs), Now());
      }
    }

    /** Along a path that is always so. */
    method DispatchOnPath(addr: nat, addrs: seq<nat>) returns (code: seq<Access>)
      requires Valid() && addrs != [] && OnPath(cfg, Mem, Arrive(addr, addrs))
      requires AllFresh(JitBlocks, Mem) && AllOnPaths(cfg, JitBlocks, RestoreCandidates, InvalidLiterals)
      modifies this`CodeRanges, this`Protected, this`FastBlockLookup, this`JitBlocks, this`RestoreCandidates,
        this`owner, this`nextPtr
      ensures Valid() && AllFresh(JitBlocks, Mem) && Fresh(code, Mem)
      ensures AllOnPaths(cfg, JitBlocks, RestoreCandidates, InvalidLiterals)
    {
      hide Consistent, AllFresh, AllOnPaths, Fresh, Safe, Steps, Path;
      ghost var before := Now();
      PathStart(cfg, Mem, addr, |addrs|);
      code := Dispatch(addr, addrs);
      StepKeepsPaths(cfg, before, Arrive(addr, addrs), Now());
    }

    /** Self-modifying code: what is run, event by event, is a run of the index. If no arrival restores more
        than follows from the words it has just read, then all that is run and all that could be is what
        memory holds. So it is in every run along paths, where branches are not followed or always taken. */
    method Run(events: seq<Event>) returns (ran: seq<seq<Access>>, ghost run: seq<Index>)
      requires Valid() && forall e <- events :: Possible(e)
      modifies this
      ensures Valid() && IsRun(cfg, events, run) && run[0] == old(Now()) && run[|events|] == Now()
      ensures |ran| == |events| && forall i :: 0 <= i < |events| && events[i].Arrive? ==>
        events[i].addr in run[i + 1].live && ran[i] == run[i + 1].live[events[i].addr].entryPoint
      ensures (old(AllFresh(JitBlocks, Mem)) && forall i :: 0 <= i < |events| ==> Safe(cfg, run[i], events[i]))
        ==> AllFresh(JitBlocks, Mem) && AllFreshThen(events, run, ran)
      ensures (old(AllFresh(JitBlocks, Mem) && AllOnPaths(cfg, JitBlocks, RestoreCandidates, InvalidLiterals))
               && AlongPaths(cfg, old(Mem), events))
        ==> AllFresh(JitBlocks, Mem) && AllFreshThen(events, run, ran)
    {
      hide Consistent, AllFresh, Retires, Steps, Safe, AllOnPaths, AlongPaths, Spared, OnlyRetires;
      ran, run := [], [Now()];
      for i := 0 to |events|
        invariant Valid() && |run| == i + 1 && |ran| == i && run[0] == old(Now()) && run[i] == Now()
        invariant IsRun(cfg, events[..i], run)
        invariant forall k :: 0 <= k < i && events[k].Arrive? ==>
          events[k].addr in run[k + 1].live && ran[k] == run[k + 1].live[events[k].addr].entryPoint
      {
        assert events[i] in events;
        ghost var before := Now();
        var code := Happen(events[i]);
        ran := ran + [code];
        run := run + [Now()];
      }
      assert events[..|events|] == events;
      RunIsFresh(cfg, events, run, ran);
    }

    /** One event; on an arrival, the code that is run. */
    method Happen(e: Event) returns (code: seq<Access>)
      requires Valid() && Possible(e)
      modifies this
      ensures Valid() && Steps(cfg, old(Now()), e, Now())
      ensures e.Arrive? ==> e.addr in JitBlocks && code == JitBlocks[e.addr].entryPoint
    {
      hide Consistent, AllFresh, Retires, Safe, Spared, OnlyRetires, Accesses, Chosen;
      code := [];
      match e {
        case Arrive(addr, addrs) => code := Dispatch(addr, addrs);
        case Store(localAddr, value) => GuardedWrite(localAddr, value);
        case Reset => ResetBlockCache();
      }
    }
  }

  lemma PathStart(cfg: Config, mem: Memory, start: nat, n: nat)
    requires n > 0
    ensures |Path(cfg, mem, start, n)| == n && Path(cfg, mem, start, n)[0] == start
  {
  }

  /** What was run on each arrival was what memory held. */
  ghost predicate AllFreshThen(events: seq<Event>, run: seq<Index>, ran: seq<seq<Access>>)
    requires |run| == |events| + 1 && |ran| == |events|
  {
    forall i :: 0 <= i < |events| && events[i].Arrive? ==> Fresh(ran[i], run[i + 1].mem)
  }

  lemma RunIsFresh(cfg: Config, events: seq<Event>, run: seq<Index>, ran: seq<seq<Access>>)
    requires IsRun(cfg, events, run) && |ran| == |events|
    requires forall i :: 0 <= i < |events| && events[i].Arrive? ==>
      events[i].addr in run[i + 1].live && ran[i] == run[i + 1].live[events[i].addr].entryPoint
    ensures (AllFresh(run[0].live, run[0].mem) && forall i :: 0 <= i < |events| ==> Safe(cfg, run[i], events[i]))
      ==> AllFresh(run[|events|].live, run[|events|].mem) && AllFreshThen(events, run, ran)
    ensures (AlongPaths(cfg, run[0].mem, events) && AllOnPaths(cfg, run[0].live, run[0].candidates, run[0].invalid))
      ==> forall i :: 0 <= i < |events| ==> Safe(cfg, run[i], events[i])
  {
    hide Steps, Safe, AllOnPaths, AlongPaths, Fresh;
    if AlongPaths(cfg, run[0].mem, events) && AllOnPaths(cfg, run[0].live, run[0].candidates, run[0].invalid) {
      RunAlongPathsIsSafe(cfg, events, run, |events|);
    }
    if AllFresh(run[0].live, run[0].mem) && forall i :: 0 <= i < |events| ==> Safe(cfg, run[i], events[i]) {
      forall n | 0 <= n <= |events| ensures AllFresh(run[n].live, run[n].mem) {
        SafeRunIsFresh(cfg, events, run, n);
      }
    }
  }

  /** With branch optimisations a run can end in stale code: the writes set up BEQ at 1024 with the same
      instruction on both sides, the taken side is compiled, its word is overwritten, and on the next
      arrival, with the branch not taken, the retired block is restored and found by the dispatcher. */
  method StaleRun(cfg: Config, rangesPerPage: nat) returns (jit: ARMJIT, entry: Option<seq<Access>>)
    requires rangesPerPage > 0
    requires forall a :: cfg.localise(a) == a
    requires (forall v, a :: cfg.literalOf(v, a) == None) && forall a :: cfg.part(a) == Whole
    ensures fresh(jit) && jit.Valid() && jit.cfg == cfg
    ensures entry.Some? && !Fresh(entry.value, jit.Mem)
  {
    hide ARMJIT.Valid, ARMJIT.Consistent, Spared, OnlyRetires, Path, Value, Accesses, Build, InstrValues, LiteralValues,
      LiteralAddrs, MayRestore, RangeOf, ChunkOf, Fresh, Chosen, ReadWord, WriteWord,
      LoadsLiteral, LiteralLive;
    jit := TakenSide(cfg, rangesPerPage);
    ghost var taken, invalid := jit.JitBlocks[1024], jit.InvalidLiterals;
    AccessesAreFresh(cfg, BRANCH_MEMORY, invalid, [1024, 1032]);
    LiteralAddrsAre(taken.entryPoint, 1032);
    jit.GuardedWrite(1032, 0xE3A0_0000);
    BranchRestoreIsStale(cfg, invalid, jit.InvalidLiterals);
    assert 1024 !in jit.JitBlocks;
    ghost var code := Accesses(cfg, jit.Mem, jit.InvalidLiterals, [1024, 1028]);
    RestoreTests(taken, 1024, code);
    ChosenAgain(cfg, jit.RestoreCandidates, jit.nextPtr, 1024, code);
    jit.CompileBlock(1024, [1024, 1028]);
    entry := jit.LookUpBlock(1024);
  }

  /** The run up to where the taken side is compiled. */
  method TakenSide(cfg: Config, rangesPerPage: nat) returns (jit: ARMJIT)
    requires rangesPerPage > 0
    requires forall a :: cfg.localise(a) == a
    ensures fresh(jit) && jit.Valid() && jit.cfg == cfg && jit.Mem == BRANCH_MEMORY && jit.RestoreCandidates == map[]
    ensures jit.JitBlocks == map[1024 := MakeBlock(cfg, 0, 1024, Accesses(cfg, BRANCH_MEMORY, jit.InvalidLiterals, [1024, 1032]))]
  {
    hide ARMJIT.Valid, ARMJIT.Consistent, Spared, AllFresh, Retires, TakesOut, LiteralLive, Path, Value, Accesses, Build, InstrValues,
      LiteralValues, LiteralAddrs, MayRestore, RangeOf, ChunkOf, Fresh, Chosen;
    jit := new ARMJIT(cfg, rangesPerPage);
    jit.GuardedWrite(1024, 0x0A00_0000);
    jit.GuardedWrite(1028, 0xE12F_FF1E);
    jit.GuardedWrite(1032, 0xE12F_FF1E);
    assert jit.Mem == BRANCH_MEMORY && jit.JitBlocks == map[] && jit.RestoreCandidates == map[];
    ChosenAnew(cfg, jit.RestoreCandidates, 0, 1024, Accesses(cfg, jit.Mem, jit.InvalidLiterals, [1024, 1032]));
    jit.CompileBlock(1024, [1024, 1032]);
  }

  lemma ChosenAnew(cfg: Config, candidates: map<seq<u32>, JitBlock>, next: nat, blockAddr: nat, code: seq<Access>)
    requires candidates == map[]
    ensures Chosen(cfg, candidates, next, blockAddr, code) == MakeBlock(cfg, next, blockAddr, code)
  {
  }

  lemma ChosenAgain(cfg: Config, candidates: map<seq<u32>, JitBlock>, next: nat, blockAddr: nat, code: seq<Access>)
    requires InstrValues(code) in candidates && MayRestore(candidates[InstrValues(code)], blockAddr, code)
    ensures Chosen(cfg, candidates, next, blockAddr, code) == candidates[InstrValues(code)]
  {
  }
}
