/** What the copying opcodes of the Action Replay machine leave in memory, byte by byte. */
module CheatMemory {
  import opened CheatEngine

  lemma Written32(m: Memory, addr: u32, v: u32, other: u32)
    ensures Read8(Write32(m, addr, v), other) ==
            var at := addr - addr % 4;
            if at <= other < at + 4 then ByteOf(v, other - at) else Read8(m, other)
  {
  }

  lemma Written8(m: Memory, addr: u32, v: u32, other: u32)
    ensures Read8(Write8(m, addr, v), other) == if other == addr then v % 256 else Read8(m, other)
  {
  }

  lemma BytesOfRead(m: Memory, addr: u32, k: nat)
    requires k < 4 && addr % 4 == 0
    ensures ByteOf(Read32(m, addr), k) == Read8(m, addr + k)
  {
    hide Read8;
    Digits(Read8(m, addr), Read8(m, addr + 1), Read8(m, addr + 2), Read8(m, addr + 3));
  }

  lemma Digits(b0: u8, b1: u8, b2: u8, b3: u8)
    ensures var v := b0 + 0x100 * b1 + 0x10000 * b2 + 0x1000000 * b3;
            ByteOf(v, 0) == b0 && ByteOf(v, 1) == b1 && ByteOf(v, 2) == b2 && ByteOf(v, 3) == b3
  {
    var v := b0 + 0x100 * b1 + 0x10000 * b2 + 0x1000000 * b3;
    assert v / 0x100 == b1 + 0x100 * b2 + 0x10000 * b3;
    assert v / 0x10000 == b2 + 0x100 * b3;
    assert v / 0x1000000 == b3;
  }

  // ----- 0xE0: payload -----

  ghost predicate PastedExactly(m: Memory, dst: u32, payload: seq<u32>, n: nat)
    requires n <= 4 * |payload|
  {
    forall addr: u32 ::
      Read8(Pasted(m, dst, payload, n), addr) ==
      if dst <= addr < dst + n then ByteOf(payload[(addr - dst) / 4], (addr - dst) % 4) else Read8(m, addr)
  }

  lemma {:induction false} BytesPasted(m: Memory, dst: u32, word: u32, k: nat, n: nat, addr: u32)
    requires k <= n < 4 && dst + (n - k) <= WORD
    ensures Read8(PastedBytes(m, dst, word, k, n), addr) ==
            if dst <= addr < dst + (n - k) then ByteOf(word, k + (addr - dst)) else Read8(m, addr)
    decreases n - k
  {
    hide Write8, Read8, ByteOf;
    if k < n {
      Written8(m, dst, ByteOf(word, k), addr);
      if dst + 1 < WORD {
        BytesPasted(Write8(m, dst, ByteOf(word, k)), Add(dst, 1), word, k + 1, n, addr);
      }
    }
  }

  lemma {:induction false} BytePasted(m: Memory, dst: u32, payload: seq<u32>, n: nat, addr: u32)
    requires n <= 4 * |payload| && dst + n <= WORD && (n < 4 || dst % 4 == 0)
    ensures Read8(Pasted(m, dst, payload, n), addr) ==
            if dst <= addr < dst + n then ByteOf(payload[(addr - dst) / 4], (addr - dst) % 4) else Read8(m, addr)
    decreases n
  {
    hide Pasted, Write32, Read8, ByteOf;
    PasteStep(m, dst, payload, n);
    if n >= 4 {
      Written32(m, dst, payload[0], addr);
      if n > 4 {
        BytePasted(Write32(m, dst, payload[0]), dst + 4, payload[1..], n - 4, addr);
        if dst + 4 <= addr {
          Fours(addr - dst);
        }
      }
    } else if n > 0 {
      BytesPasted(m, dst, payload[0], 0, n, addr);
    }
  }

  lemma Fours(x: nat)
    requires x >= 4
    ensures (x - 4) / 4 == x / 4 - 1 && (x - 4) % 4 == x % 4
  {
  }

  lemma PasteStep(m: Memory, dst: u32, payload: seq<u32>, n: nat)
    requires n <= 4 * |payload| && dst + n <= WORD
    ensures Pasted(m, dst, payload, n) ==
            if n == 0 then m
            else if n < 4 then PastedBytes(m, dst, payload[0], 0, n)
            else if n == 4 then Write32(m, dst, payload[0])
            else Pasted(Write32(m, dst, payload[0]), dst + 4, payload[1..], n - 4)
  {
    hide Write32, PastedBytes;
    if n == 4 {
      assert Pasted(Write32(m, dst, payload[0]), Add(dst, 4), payload[1..], 0) == Write32(m, dst, payload[0]);
    }
  }

  lemma PasteIsExact(m: Memory, dst: u32, payload: seq<u32>, n: nat)
    requires n <= 4 * |payload| && dst + n <= WORD && (n < 4 || dst % 4 == 0)
    ensures PastedExactly(m, dst, payload, n)
  {
    hide Pasted, Read8, ByteOf;
    forall addr: u32 { BytePasted(m, dst, payload, n, addr); }
  }

  /** Nothing below the word of the destination is written. */
  lemma {:induction false} PasteStaysAbove(m: Memory, dst: u32, payload: seq<u32>, n: nat, addr: u32)
    requires n <= 4 * |payload| && dst + n <= WORD && addr < dst - dst % 4
    ensures Read8(Pasted(m, dst, payload, n), addr) == Read8(m, addr)
    decreases n
  {
    hide Write8, Write32, Read8, ByteOf;
    if n >= 4 {
      Written32(m, dst, payload[0], addr);
      if n > 4 {
        PasteStaysAbove(Write32(m, dst, payload[0]), dst + 4, payload[1..], n - 4, addr);
      }
    } else if n > 0 {
      BytesPasted(m, dst, payload[0], 0, n, addr);
    }
  }

  function Ones(n: nat): (s: seq<u32>)
    ensures |s| == n && forall i | 0 <= i < n :: s[i] == 0xFFFFFFFF
  {
    if n == 0 then [] else Ones(n - 1) + [0xFFFFFFFF]
  }

  /** From an unaligned destination, a word lands on the bytes before it. */
  lemma UnalignedPaste(dst: u32, n: nat)
    requires n >= 4 && dst % 4 != 0 && dst + n <= WORD
    ensures !PastedExactly(map[], dst, Ones(n), n)
  {
    hide Write8, Write32, ByteOf;
    var ones := Ones(n);
    var before: u32 := dst - 1;
    var m := Write32(map[], dst, ones[0]);
    Written32(map[], dst, ones[0], before);
    AllOnes();
    if n > 4 {
      PasteStaysAbove(m, dst + 4, ones[1..], n - 4, before);
    }
    assert Read8(Pasted(map[], dst, ones, n), before) == 255;
    assert Read8(map[], before) == 0;
  }

  lemma AllOnes()
    ensures ByteOf(0xFFFFFFFF, 0) == ByteOf(0xFFFFFFFF, 1) == ByteOf(0xFFFFFFFF, 2) == ByteOf(0xFFFFFFFF, 3) == 255
  {
  }

  /** "Copy b bytes to address a + offset" is what happens to every payload and memory exactly if the
      destination is word-aligned or no whole word is copied. */
  lemma PasteExactIff(dst: u32, n: nat)
    requires dst + n <= WORD
    ensures (forall m: Memory, payload: seq<u32> | n <= 4 * |payload| :: PastedExactly(m, dst, payload, n))
            <==> (n < 4 || dst % 4 == 0)
  {
    hide PastedExactly;
    if n < 4 || dst % 4 == 0 {
      forall m: Memory, payload: seq<u32> | n <= 4 * |payload| ensures PastedExactly(m, dst, payload, n) {
        PasteIsExact(m, dst, payload, n);
      }
    } else {
      UnalignedPaste(dst, n);
      assert n <= 4 * |Ones(n)| && !PastedExactly(map[], dst, Ones(n), n);
    }
  }

  // ----- 0xF0: copy -----

  lemma CopyStep(m: Memory, src: u32, dst: u32, n: nat)
    requires n >= 4
    ensures Copied(m, src, dst, n) == Copied(Write32(m, dst, Read32(m, src)), Add(src, 4), Add(dst, 4), n - 4)
  {
  }

  lemma NoBytesCopied(m: Memory, src: u32, dst: u32)
    ensures Copied(m, src, dst, 0) == m
  {
  }

  lemma CopyWord(m: Memory, src: u32, dst: u32, n: nat)
    requires n >= 4 && src + n <= WORD && dst + n <= WORD
    ensures var m' := Write32(m, dst, Read32(m, src));
            Copied(m, src, dst, n) == if n == 4 then m' else Copied(m', src + 4, dst + 4, n - 4)
  {
    hide Copied, Write32, Read32;
    CopyStep(m, src, dst, n);
    if n == 4 {
      NoBytesCopied(Write32(m, dst, Read32(m, src)), Add(src, 4), Add(dst, 4));
    }
  }

  lemma CopyByte(m: Memory, src: u32, dst: u32, n: nat)
    requires 0 < n < 4 && src + n <= WORD && dst + n <= WORD
    ensures var m' := Write8(m, dst, Read8(m, src));
            Copied(m, src, dst, n) == if n == 1 then m' else Copied(m', src + 1, dst + 1, n - 1)
  {
    hide Write32, Read32, Write8, Read8;
    var m' := Write8(m, dst, Read8(m, src));
    assert Copied(m', Add(src, 1), Add(dst, 1), 0) == m';
  }

  lemma {:induction false} FewBytesCopied(m: Memory, src: u32, dst: u32, n: nat, addr: u32)
    requires n < 4 && src + n <= WORD && dst + n <= WORD && (dst <= src || src + n <= dst)
    ensures Read8(Copied(m, src, dst, n), addr) ==
            if dst <= addr < dst + n then Read8(m, src + (addr - dst)) else Read8(m, addr)
    decreases n
  {
    hide Copied, Write8, Read8, ByteOf;
    if n == 0 {
      NoBytesCopied(m, src, dst);
    } else {
      var v := Read8(m, src);
      CopyByte(m, src, dst, n);
      Written8(m, dst, v, addr);
      if n > 1 {
        FewBytesCopied(Write8(m, dst, v), src + 1, dst + 1, n - 1, addr);
        if dst + 1 <= addr < dst + n {
          Written8(m, dst, v, src + (addr - dst));
        }
      }
    }
  }

  lemma ReadAligned(m: Memory, addr: u32)
    ensures Read32(m, addr) == Read32(m, addr - addr % 4)
  {
  }

  /** A word goes from the word of the source to the word of the destination. */
  lemma WordCopied(m: Memory, src: u32, dst: u32, addr: u32)
    ensures var from, to := src - src % 4, dst - dst % 4;
            Read8(Write32(m, dst, Read32(m, src)), addr) ==
            if to <= addr < to + 4 then Read8(m, from + (addr - to)) else Read8(m, addr)
  {
    hide Write32, Read8, Read32, ByteOf;
    ReadAligned(m, src);
    Written32(m, dst, Read32(m, src), addr);
    var from, to := src - src % 4, dst - dst % 4;
    if to <= addr < to + 4 {
      BytesOfRead(m, from, addr - to);
    }
  }

  /** Between aligned addresses, and forward or apart, every byte arrives and nothing else changes. */
  lemma {:induction false} CopyIsExact(m: Memory, src: u32, dst: u32, n: nat, addr: u32)
    requires src + n <= WORD && dst + n <= WORD && (n < 4 || (src % 4 == 0 && dst % 4 == 0))
    requires dst <= src || src + n <= dst
    ensures Read8(Copied(m, src, dst, n), addr) ==
            if dst <= addr < dst + n then Read8(m, src + (addr - dst)) else Read8(m, addr)
    decreases n
  {
    hide Write32, Read8, Read32, Copied;
    if n < 4 {
      FewBytesCopied(m, src, dst, n, addr);
    } else {
      CopyWord(m, src, dst, n);
      WordCopied(m, src, dst, addr);
      if n > 4 {
        CopyIsExact(Write32(m, dst, Read32(m, src)), src + 4, dst + 4, n - 4, addr);
        if dst + 4 <= addr < dst + n {
          WordCopied(m, src, dst, src + (addr - dst));
        }
      }
    }
  }

  /** What a byte should be once `n` bytes of `m` have gone from `src` to `dst`. */
  function Moved(m: Memory, src: u32, dst: u32, n: nat, addr: u32): u8
    requires src + n <= WORD
  {
    if dst <= addr < dst + n then Read8(m, src + (addr - dst)) else Read8(m, addr)
  }

  ghost predicate CopiedExactly(m: Memory, src: u32, dst: u32, n: nat)
    requires src + n <= WORD
  {
    forall addr: u32 :: Read8(Copied(m, src, dst, n), addr) == Moved(m, src, dst, n, addr)
  }

  /** A block copied onto itself stays as it is, wherever it starts. */
  lemma {:induction false} CopyOntoItself(m: Memory, src: u32, n: nat, addr: u32)
    requires src + n <= WORD
    ensures Read8(Copied(m, src, src, n), addr) == Read8(m, addr)
    decreases n
  {
    hide Copied, Write32, Write8, Read8, Read32, ByteOf;
    if n >= 4 {
      CopyWord(m, src, src, n);
      WordCopied(m, src, src, addr);
      if n > 4 {
        CopyOntoItself(Write32(m, src, Read32(m, src)), src + 4, n - 4, addr);
      }
    } else if n == 0 {
      NoBytesCopied(m, src, src);
    } else {
      CopyByte(m, src, src, n);
      Written8(m, src, Read8(m, src), addr);
      if n > 1 {
        CopyOntoItself(Write8(m, src, Read8(m, src)), src + 1, n - 1, addr);
      }
    }
  }

  /** Nothing below the word of the destination is written, and nothing below a few bytes. */
  lemma {:induction false} CopyStaysAbove(m: Memory, src: u32, dst: u32, n: nat, addr: u32)
    requires dst + n <= WORD && src + n <= WORD && (addr < dst - dst % 4 || (n < 4 && addr < dst))
    ensures Read8(Copied(m, src, dst, n), addr) == Read8(m, addr)
    decreases n
  {
    hide Copied, Write32, Write8, Read8, Read32, ByteOf;
    if n >= 4 {
      CopyWord(m, src, dst, n);
      Written32(m, dst, Read32(m, src), addr);
      if n > 4 {
        CopyStaysAbove(Write32(m, dst, Read32(m, src)), src + 4, dst + 4, n - 4, addr);
      }
    } else if n == 0 {
      NoBytesCopied(m, src, dst);
    } else {
      CopyByte(m, src, dst, n);
      Written8(m, dst, Read8(m, src), addr);
      if n > 1 {
        CopyStaysAbove(Write8(m, dst, Read8(m, src)), src + 1, dst + 1, n - 1, addr);
      }
    }
  }

  /** A copy in two parts, the first of whole words or the whole of bytes. */
  lemma {:induction false} CopyInParts(m: Memory, src: u32, dst: u32, n: nat, k: nat)
    requires src + n <= WORD && dst + n <= WORD && k < n && (n < 4 || k % 4 == 0)
    ensures Copied(m, src, dst, n) == Copied(Copied(m, src, dst, k), src + k, dst + k, n - k)
    decreases k
  {
    hide Copied, Write32, Write8, Read8, Read32;
    if k == 0 {
      NoBytesCopied(m, src, dst);
    } else if n >= 4 {
      CopyWord(m, src, dst, n);
      CopyWord(m, src, dst, k);
      if k == 4 {
        NoBytesCopied(Write32(m, dst, Read32(m, src)), src + 4, dst + 4);
      }
      CopyInParts(Write32(m, dst, Read32(m, src)), src + 4, dst + 4, n - 4, k - 4);
    } else {
      CopyByte(m, src, dst, n);
      CopyByte(m, src, dst, k);
      if k == 1 {
        NoBytesCopied(Write8(m, dst, Read8(m, src)), src + 1, dst + 1);
      }
      CopyInParts(Write8(m, dst, Read8(m, src)), src + 1, dst + 1, n - 1, k - 1);
    }
  }

  /** The first word of a copy ends up in the word of the destination, wherever the two start. */
  lemma FirstWord(m: Memory, src: u32, dst: u32, n: nat, k: nat)
    requires n >= 4 && src + n <= WORD && dst + n <= WORD && k < 4
    ensures Read8(Copied(m, src, dst, n), dst - dst % 4 + k) == Read8(m, src - src % 4 + k)
  {
    hide Write32, Write8, Read8, Read32, Copied;
    var addr: u32 := dst - dst % 4 + k;
    CopyWord(m, src, dst, n);
    WordCopied(m, src, dst, addr);
    if n > 4 {
      CopyStaysAbove(Write32(m, dst, Read32(m, src)), src + 4, dst + 4, n - 4, addr);
    }
  }

  lemma One(at: u32, addr: u32)
    ensures Read8(map[at := 1], addr) == if addr == at then 1 else 0
  {
  }

  /** Between different addresses that are not both aligned, a word arrives in the wrong place. */
  lemma UnalignedCopy(src: u32, dst: u32, n: nat) returns (m: Memory)
    requires n >= 4 && src + n <= WORD && dst + n <= WORD && src != dst && (src % 4 != 0 || dst % 4 != 0)
    ensures !CopiedExactly(m, src, dst, n)
  {
    hide Read8, Copied;
    var from: u32, to: u32 := src - src % 4, dst - dst % 4;
    if dst % 4 != 0 && from != to {
      m := map[from := 1];
      FirstWord(m, src, dst, n, 0);
      One(from, from);
      One(from, to);
      assert Read8(Copied(m, src, dst, n), to) != Moved(m, src, dst, n, to);
    } else {
      m := map[src := 1];
      FirstWord(m, src, dst, n, dst % 4);
      One(src, src);
      One(src, from + dst % 4);
      assert Read8(Copied(m, src, dst, n), dst) != Moved(m, src, dst, n, dst);
    }
  }

  /** A copy to a little above its source reads what it has written. */
  lemma OverlappingCopy(src: u32, dst: u32, n: nat) returns (m: Memory)
    requires src < dst < src + n <= WORD && dst + n <= WORD && (n < 4 || (src % 4 == 0 && dst % 4 == 0))
    ensures !CopiedExactly(m, src, dst, n)
  {
    hide Write32, Write8, Read8, Read32, Copied, ByteOf;
    m := map[src := 1];
    var k := dst - src;
    var m' := Copied(m, src, dst, k);
    CopyInParts(m, src, dst, n, k);
    CopyIsExact(m, src, dst, k, dst);
    One(src, src);
    One(src, dst);
    FirstByte(m', dst, dst + k, n - k);
    assert Read8(Copied(m, src, dst, n), dst + k) != Moved(m, src, dst, n, dst + k);
  }

  lemma FirstByte(m: Memory, src: u32, dst: u32, n: nat)
    requires 0 < n && src + n <= WORD && dst + n <= WORD && (n < 4 || (src % 4 == 0 && dst % 4 == 0))
    ensures Read8(Copied(m, src, dst, n), dst) == Read8(m, src)
  {
    hide Copied, Write32, Write8, Read8, Read32, ByteOf;
    if n >= 4 {
      FirstWord(m, src, dst, n, 0);
    } else {
      CopyByte(m, src, dst, n);
      Written8(m, dst, Read8(m, src), dst);
      if n > 1 {
        CopyStaysAbove(Write8(m, dst, Read8(m, src)), src + 1, dst + 1, n - 1, dst);
      }
    }
  }

  /** "Copy b bytes from offset to address a" is what happens to every memory exactly if the two are the same
      address, or the copy does not run into what it has yet to read, and both are word-aligned or no whole
      word is copied. */
  lemma CopyExactIff(src: u32, dst: u32, n: nat)
    requires src + n <= WORD && dst + n <= WORD
    ensures (forall m: Memory :: CopiedExactly(m, src, dst, n)) <==>
            (src == dst || ((dst <= src || src + n <= dst) && (n < 4 || (src % 4 == 0 && dst % 4 == 0))))
  {
    hide Read8, Copied;
    if src == dst {
      forall m: Memory ensures CopiedExactly(m, src, dst, n) {
        forall addr: u32 ensures Read8(Copied(m, src, dst, n), addr) == Moved(m, src, dst, n, addr) {
          CopyOntoItself(m, src, n, addr);
        }
      }
    } else if n >= 4 && (src % 4 != 0 || dst % 4 != 0) {
      var m := UnalignedCopy(src, dst, n);
    } else if src < dst < src + n {
      var m := OverlappingCopy(src, dst, n);
    } else {
      forall m: Memory ensures CopiedExactly(m, src, dst, n) {
        forall addr: u32 ensures Read8(Copied(m, src, dst, n), addr) == Moved(m, src, dst, n, addr) {
          CopyIsExact(m, src, dst, n, addr);
        }
      }
    }
  }
}
