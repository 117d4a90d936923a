/** The two bump allocators of malloc.c: one grows down from the start of the firmware, one grows
    up from its end. Alignment is done by masking with the 32-bit complement of a power of two. */
module Malloc {
  import opened Bytes

  const WORD_BITS: nat := 32

  function Pow2(k: nat): (p: nat)
    ensures p >= 1
  {
    if k == 0 then 1 else 2 * Pow2(k - 1)
  }

  ghost predicate IsPowerOfTwo(a: nat) {
    exists k: nat :: k < 32 && a == Pow2(k)
  }

  /** The bitwise conjunction of two numbers of w bits. */
  function And(x: nat, y: nat, w: nat): nat {
    if w == 0 then 0 else (x % 2) * (y % 2) + 2 * And(x / 2, y / 2, w - 1)
  }

  function RoundDown(x: nat, a: nat): nat
    requires a > 0
  {
    x - x % a
  }

  function RoundUp(x: nat, a: nat): nat
    requires a > 0
  {
    RoundDown(x + a - 1, a)
  }

  lemma {:induction false} AllOnes(x: nat, w: nat)
    requires x < Pow2(w)
    ensures And(x, Pow2(w) - 1, w) == x
  {
    if w > 0 {
      assert (Pow2(w) - 1) / 2 == Pow2(w - 1) - 1;
      AllOnes(x / 2, w - 1);
    }
  }

  lemma HalfOfMultiple(x: nat, p: nat)
    requires p >= 1
    ensures x % (2 * p) == x % 2 + 2 * (x / 2 % p)
  {
    var q, r := x / 2 / p, x / 2 % p;
    assert x == 2 * (p * q + r) + x % 2;
    assert 2 * (p * q) == (2 * p) * q;
    DivModUnique(x, 2 * p, q, x % 2 + 2 * r);
  }

  /** Masking with the complement of 2^k rounds down to a multiple of 2^k. */
  lemma {:induction false} MaskRoundsDown(x: nat, k: nat, w: nat)
    requires k <= w && x < Pow2(w)
    ensures Pow2(k) <= Pow2(w)
    ensures And(x, Pow2(w) - Pow2(k), w) == RoundDown(x, Pow2(k))
    decreases w
  {
    if k == 0 {
      AllOnes(x, w);
    } else {
      var y := Pow2(w) - Pow2(k);
      assert y == 2 * (Pow2(w - 1) - Pow2(k - 1));
      MaskRoundsDown(x / 2, k - 1, w - 1);
      HalfOfMultiple(x, Pow2(k - 1));
    }
  }

  lemma MultipleAbove(x: nat, a: nat)
    requires a > 0
    ensures x <= RoundUp(x, a) < x + a
    ensures RoundDown(x, a) <= x < RoundDown(x, a) + a
    ensures RoundDown(x, a) % a == 0 && RoundUp(x, a) % a == 0
    ensures RoundUp(x, a) == RoundDown(x + a - 1, a)
  {
    RoundDownMultiple(x, a);
    RoundDownMultiple(x + a - 1, a);
  }

  lemma RoundDownMultiple(x: nat, a: nat)
    requires a > 0
    ensures RoundDown(x, a) % a == 0
  {
    assert x == a * (x / a) + x % a;
    DivModUnique(RoundDown(x, a), a, x / a, 0);
  }

  /** A block that has been handed out. */
  datatype Block = Block(start: nat, size: nat, align: nat) {
    predicate Contains(a: nat) {
      start <= a < start + size
    }

    predicate Meets(other: Block) {
      start < other.start + other.size && other.start < start + size
    }
  }

  ghost predicate Apart(blocks: seq<Block>) {
    forall i, j | 0 <= i < j < |blocks| :: !blocks[i].Meets(blocks[j])
  }

  ghost predicate Aligned(blocks: seq<Block>) {
    forall b | b in blocks :: b.align > 0 && b.start % b.align == 0
  }

  /** The sum of size + align - 1 over requests. */
  ghost function Need(blocks: seq<Block>): int {
    if blocks == [] then 0
    else Need(blocks[..|blocks| - 1]) + blocks[|blocks| - 1].size + blocks[|blocks| - 1].align - 1
  }

  class Heap {
    var mallocTop: nat
    var fsegBase: nat
    ghost const top0: nat
    ghost const base0: nat
    ghost var high: seq<Block>
    ghost var fseg: seq<Block>

    ghost predicate Valid()
      reads this
    {
      && mallocTop <= top0 <= base0 <= fsegBase < WORD
      && mallocTop + Need(high) >= top0
      && (forall b | b in high :: mallocTop <= b.start && b.start + b.size <= top0)
      && (forall b | b in fseg :: base0 <= b.start && b.start + b.size <= fsegBase)
      && Apart(high) && Apart(fseg)
      && Aligned(high) && Aligned(fseg)
    }

    constructor (stext: nat, edata: nat)
      requires stext <= edata < WORD
      ensures Valid() && mallocTop == top0 == stext && fsegBase == base0 == edata
      ensures high == [] && fseg == []
    {
      mallocTop, fsegBase := stext, edata;
      top0, base0 := stext, edata;
      high, fseg := [], [];
    }

    method MallocAlign(n: nat, align: nat) returns (p: nat)
      requires Valid() && IsPowerOfTwo(align) && n <= mallocTop
      modifies this
      ensures Valid()
      ensures p == mallocTop == RoundDown(old(mallocTop) - n, align)
      ensures high == old(high) + [Block(p, n, align)]
      ensures fseg == old(fseg) && fsegBase == old(fsegBase)
    {
      hide And, RoundDown, IsPowerOfTwo, Apart, Aligned, Need;
      MaskedDown(mallocTop - n, align);
      MultipleAbove(mallocTop - n, align);
      mallocTop := And((mallocTop - n) % WORD, (WORD - align) % WORD, WORD_BITS);
      p := mallocTop;
      OneMore(high, Block(p, n, align));
      high := high + [Block(p, n, align)];
    }

    method MallocFsegAlign(n: nat, align: nat) returns (p: nat)
      requires Valid() && IsPowerOfTwo(align) && fsegBase + align - 1 + n < WORD
      modifies this
      ensures Valid()
      ensures p == RoundUp(old(fsegBase), align) && fsegBase == p + n
      ensures fseg == old(fseg) + [Block(p, n, align)]
      ensures high == old(high) && mallocTop == old(mallocTop)
    {
      hide And, RoundDown, Apart, Aligned, Need;
      MaskedDown(fsegBase + align - 1, align);
      MultipleAbove(fsegBase, align);
      fsegBase := And((fsegBase + align - 1) % WORD, (WORD - align) % WORD, WORD_BITS);
      p := fsegBase;
      fsegBase := fsegBase + n;
      OneMore(fseg, Block(p, n, align));
      fseg := fseg + [Block(p, n, align)];
    }
  }

  lemma OneMore(blocks: seq<Block>, b: Block)
    requires Apart(blocks) && Aligned(blocks) && b.align > 0 && b.start % b.align == 0
    requires forall o | o in blocks :: !o.Meets(b)
    ensures Apart(blocks + [b]) && Aligned(blocks + [b])
    ensures Need(blocks + [b]) == Need(blocks) + b.size + b.align - 1
  {
    assert (blocks + [b])[..|blocks|] == blocks;
    forall i | 0 <= i < |blocks| ensures !blocks[i].Meets(b) {
      assert blocks[i] in blocks;
    }
  }

  lemma Pow2Of32()
    ensures Pow2(WORD_BITS) == WORD
  {
    assert Pow2(8) == 256;
    assert Pow2(16) == 65536;
    assert Pow2(24) == 16777216;
  }

  lemma MaskedDown(x: nat, align: nat)
    requires IsPowerOfTwo(align) && x < WORD
    ensures 0 < align <= WORD
    ensures And(x % WORD, (WORD - align) % WORD, WORD_BITS) == RoundDown(x, align)
  {
    var k: nat :| k < 32 && align == Pow2(k);
    Pow2Of32();
    MaskRoundsDown(x, k, WORD_BITS);
    hide Pow2, And, RoundDown;
    assert x % WORD == x && (WORD - align) % WORD == Pow2(WORD_BITS) - Pow2(k);
  }

  lemma SixteenIsPowerOfTwo()
    ensures IsPowerOfTwo(16)
  {
    assert Pow2(4) == 16;
  }

  /** Blocks of the two allocators never meet, whatever the calls: no address is in two of them. */
  lemma AllBlocksApart(heap: Heap)
    requires heap.Valid()
    ensures Apart(heap.high + heap.fseg) && Aligned(heap.high + heap.fseg)
    ensures var all := heap.high + heap.fseg;
            forall i, j, a: nat | 0 <= i < j < |all| && all[i].Contains(a) :: !all[j].Contains(a)
  {
    var all := heap.high + heap.fseg;
    forall i, j | 0 <= i < j < |all| ensures !all[i].Meets(all[j]) {
      if i < |heap.high| <= j {
        assert all[i] in heap.high && all[j] in heap.fseg;
      }
    }
  }

  /** However the two allocators are used, the downward blocks stay within the ACPI window that
      the memory map declares, [0xd0000, 0xf0000), as long as what was asked for adds up to
      no more than 128 KB. */
  lemma BlocksInNvsWindow(heap: Heap, b: Block)
    requires heap.Valid() && heap.top0 == 0xf0000 && Need(heap.high) <= 128 * 1024 && b in heap.high
    ensures 0xd0000 <= b.start && b.start + b.size <= 0xf0000
  {
  }
}
