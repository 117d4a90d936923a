/** Placement of a bzImage and the patching of its setup header in place (linuxboot.c). */
module LinuxBoot {
  import opened Bytes
  import opened FwCfg
  import opened Malloc

  // ---------- lists of writes ----------

  datatype Write = Write(at: nat, bytes: seq<byte>) {
    predicate Fits(n: nat) {
      at + |bytes| <= n
    }

    predicate Contains(i: nat) {
      at <= i < at + |bytes|
    }

    predicate Meets(other: Write) {
      at < other.at + |other.bytes| && other.at < at + |bytes|
    }
  }

  function Put(m: seq<byte>, w: Write): (r: seq<byte>)
    ensures |r| == |m|
  {
    if w.Fits(|m|) then Patch(m, w.at, w.bytes) else m
  }

  /** m after the writes, in order. */
  function PutAll(m: seq<byte>, ws: seq<Write>): (r: seq<byte>)
    ensures |r| == |m|
  {
    if ws == [] then m else Put(PutAll(m, ws[..|ws| - 1]), ws[|ws| - 1])
  }

  lemma {:induction false} PutAllKeeps(m: seq<byte>, ws: seq<Write>, i: nat)
    requires i < |m| && forall w | w in ws :: !w.Contains(i)
    ensures PutAll(m, ws)[i] == m[i]
  {
    if ws != [] {
      PutAllKeeps(m, ws[..|ws| - 1], i);
      assert ws[|ws| - 1] in ws;
    }
  }

  /** A write that no later one meets can be read back at the end. */
  lemma {:induction false} PutAllHolds(m: seq<byte>, ws: seq<Write>, k: nat)
    requires k < |ws| && ws[k].Fits(|m|)
    requires forall j | k < j < |ws| :: !ws[j].Meets(ws[k])
    ensures PutAll(m, ws)[ws[k].at..ws[k].at + |ws[k].bytes|] == ws[k].bytes
  {
    var n := |ws| - 1;
    if k < n {
      PutAllHolds(m, ws[..n], k);
      PutElsewhere(PutAll(m, ws[..n]), ws[k], ws[n]);
    } else {
      PutReads(PutAll(m, ws[..n]), ws[n]);
    }
  }

  lemma PutReads(m: seq<byte>, w: Write)
    requires w.Fits(|m|)
    ensures Put(m, w)[w.at..w.at + |w.bytes|] == w.bytes
  {
  }

  lemma PutElsewhere(m: seq<byte>, w: Write, v: Write)
    requires w.Fits(|m|) && !v.Meets(w)
    ensures Put(m, v)[w.at..w.at + |w.bytes|] == m[w.at..w.at + |w.bytes|]
  {
    if v.Fits(|m|) {
      if w.bytes == [] {
      } else if v.bytes == [] {
        assert Put(m, v) == m;
      } else {
        PatchElsewhere(m, w.at, |w.bytes|, v.at, v.bytes);
      }
    }
  }

  /** Writes that stay inside a prefix leave the rest behind it. */
  lemma {:induction false} PutAllPrefix(a: seq<byte>, b: seq<byte>, ws: seq<Write>)
    requires forall w | w in ws :: w.Fits(|a|)
    ensures PutAll(a + b, ws) == PutAll(a, ws) + b
  {
    if ws == [] {
    } else {
      var front, w := ws[..|ws| - 1], ws[|ws| - 1];
      PutAllPrefix(a, b, front);
      assert w in ws;
      assert Put(PutAll(a, front) + b, w) == Put(PutAll(a, front), w) + b;
    }
  }

  // ---------- what the setup header says ----------

  const HEADER_END: nat := 0x230
  const MAGIC: nat := 0x53726448

  /** The fields of the setup header that the loader goes by. */
  datatype Setup = Setup(magic: nat, protocol: nat, flags: byte, initrdLimit: nat, sectors: byte) {
    predicate High() {
      protocol >= 0x200 && flags % 2 == 1
    }
  }

  function Field(h: seq<byte>, at: nat, n: nat): nat
    requires at + n <= |h|
  {
    FromLE(h[at..at + n])
  }

  function SetupOf(h: seq<byte>): Setup
    requires |h| >= HEADER_END
  {
    Setup(Field(h, 0x202, 4), Field(h, 0x206, 2), h[0x211], Field(h, 0x22c, 4), h[0x1f1])
  }

  /** What the loader knows besides the header. */
  datatype Inputs = Inputs(cmdlineSize: nat, initrdSize: nat, lowmem: nat) {
    predicate Valid() {
      cmdlineSize < WORD && initrdSize < WORD && 0 < lowmem < WORD
    }
  }

  /** 32-bit subtraction. */
  function Minus(a: nat, b: nat): nat {
    (a - b) % WORD
  }

  datatype Placement = Placement(segment: nat, cmdline: nat, prot: nat)

  function Place(s: Setup, cmdlineSize: nat): Placement {
    if !s.High() then Placement(0x90000, RoundDown(Minus(0x9a000, cmdlineSize), 16), 0x10000)
    else if s.protocol < 0x202 then Placement(0x90000, RoundDown(Minus(0x9a000, cmdlineSize), 16), 0x100000)
    else Placement(0x10000, 0x20000, 0x100000)
  }

  function InitrdMax(s: Setup, lowmem: nat): nat
    requires lowmem > 0
  {
    var limit := if s.protocol >= 0x203 then s.initrdLimit else 0x37ffffff;
    if limit > lowmem - 1 then lowmem - 1 else limit
  }

  function InitrdAddr(max: nat, size: nat): nat {
    if size > 0 then RoundDown(Minus(max, size), 4096) else 0
  }

  function SetupSize(s: Setup): nat {
    ((if s.sectors == 0 then 4 else s.sectors as nat) + 1) * 512
  }

  /** The initrd goes to the highest page at which it ends by the limit of the header and by the top
      of low memory; the 32-bit difference wraps, and it ends beyond, exactly when it is larger
      than that. */
  lemma InitrdPlacement(s: Setup, lowmem: nat, size: nat)
    requires 0 < lowmem < WORD && 0 < size < WORD
    ensures var max := InitrdMax(s, lowmem); var addr := InitrdAddr(max, size);
            && addr % 4096 == 0
            && (addr + size <= max <==> size <= max)
            && (size <= max ==> forall a: nat :: a % 4096 == 0 && a + size <= max ==> a <= addr)
    ensures s.protocol >= 0x203 ==> InitrdMax(s, lowmem) <= s.initrdLimit
    ensures InitrdMax(s, lowmem) == lowmem - 1 || InitrdMax(s, lowmem) == 0x37ffffff
            || InitrdMax(s, lowmem) == s.initrdLimit
  {
    var max := InitrdMax(s, lowmem);
    var top := Minus(max, size);
    RoundDownMultiple(top, 4096);
    if size <= max {
      WordDifference(max, size);
    } else {
      WordWraps(max, size);
    }
  }

  lemma WordDifference(a: nat, b: nat)
    requires b <= a < WORD
    ensures Minus(a, b) == a - b
  {
  }

  lemma WordWraps(a: nat, b: nat)
    requires a < b < WORD
    ensures Minus(a, b) == a + WORD - b
  {
  }

  // ---------- the patched fields ----------

  function WithHeap(flags: byte): byte {
    if flags >= 0x80 then flags else flags + 0x80
  }

  function CmdlineWrites(s: Setup, p: Placement): seq<Write> {
    if s.protocol >= 0x202 then [Write(0x228, ToLE(p.cmdline, 4))]
    else [Write(0x20, ToLE(0xA33F, 2)), Write(0x22, ToLE(Offset(p), 2))]
  }

  /** The command line as seen from the real-mode segment. */
  function Offset(p: Placement): nat {
    Minus(p.cmdline, p.segment)
  }

  function LoaderWrites(s: Setup): seq<Write> {
    if s.protocol >= 0x200 then [Write(0x210, [0xB0])] else []
  }

  function HeapWrites(s: Setup, p: Placement): seq<Write> {
    if s.protocol >= 0x201 then
      [Write(0x211, [WithHeap(s.flags)]), Write(0x224, ToLE(Minus(Offset(p), 0x200), 2))]
    else []
  }

  function InitrdWrites(addr: nat, size: nat): seq<Write> {
    [Write(0x218, ToLE(addr, 4)), Write(0x21c, ToLE(size, 4))]
  }

  function AllWrites(s: Setup, place: Placement, addr: nat, size: nat): seq<Write> {
    CmdlineWrites(s, place) + LoaderWrites(s) + HeapWrites(s, place) + InitrdWrites(addr, size)
  }

  function HeaderWrites(s: Setup, i: Inputs): seq<Write>
    requires i.Valid()
  {
    AllWrites(s, Place(s, i.cmdlineSize), InitrdAddr(InitrdMax(s, i.lowmem), i.initrdSize), i.initrdSize)
  }

  /** The setup header, or a longer stretch that starts with it, after patching. */
  function Patched(h: seq<byte>, i: Inputs): (r: seq<byte>)
    requires |h| >= HEADER_END && i.Valid()
    ensures |r| == |h|
  {
    PutAll(h, HeaderWrites(SetupOf(h), i))
  }

  /** The bytes that a header of some protocol version may have changed. */
  predicate MayChange(protocol: nat, k: nat) {
    || 0x218 <= k < 0x220
    || (protocol < 0x202 && 0x20 <= k < 0x24)
    || (protocol >= 0x200 && k == 0x210)
    || (protocol >= 0x201 && (k == 0x211 || 0x224 <= k < 0x226))
    || (protocol >= 0x202 && 0x228 <= k < 0x22c)
  }

  lemma WritesMayChange(s: Setup, i: Inputs, w: Write)
    requires i.Valid() && w in HeaderWrites(s, i)
    ensures w.Fits(HEADER_END) && forall k: nat | w.Contains(k) :: MayChange(s.protocol, k)
  {
    hide ToLE, Minus, RoundDown, Place, InitrdAddr, InitrdMax, Offset;
  }

  lemma WritesApart(s: Setup, i: Inputs)
    requires i.Valid()
    ensures var ws := HeaderWrites(s, i); forall j, k | 0 <= j < k < |ws| :: !ws[k].Meets(ws[j])
  {
    hide ToLE, Minus, RoundDown, Place, InitrdAddr, InitrdMax, Offset;
  }

  /** Only the fields of the protocol version change. */
  lemma PatchedKeeps(h: seq<byte>, i: Inputs, k: nat)
    requires HEADER_END <= |h| && i.Valid() && k < |h| && !MayChange(SetupOf(h).protocol, k)
    ensures Patched(h, i)[k] == h[k]
  {
    hide PutAll, HeaderWrites, MayChange;
    var s := SetupOf(h);
    forall w | w in HeaderWrites(s, i) ensures !w.Contains(k) {
      WritesMayChange(s, i, w);
    }
    PutAllKeeps(h, HeaderWrites(s, i), k);
  }

  lemma PatchedHolds(h: seq<byte>, i: Inputs, w: Write)
    requires HEADER_END <= |h| && i.Valid() && w in HeaderWrites(SetupOf(h), i)
    ensures w.at + |w.bytes| <= |h| && Patched(h, i)[w.at..w.at + |w.bytes|] == w.bytes
  {
    hide PutAll, HeaderWrites, Write.Meets, MayChange;
    var s := SetupOf(h);
    var ws := HeaderWrites(s, i);
    WritesMayChange(s, i, w);
    WritesApart(s, i);
    var k :| 0 <= k < |ws| && ws[k] == w;
    PutAllHolds(h, ws, k);
  }

  lemma FieldHolds(h: seq<byte>, i: Inputs, at: nat, v: nat, n: nat)
    requires HEADER_END <= |h| && i.Valid() && Write(at, ToLE(v, n)) in HeaderWrites(SetupOf(h), i)
    requires v < Pow256(n)
    ensures at + n <= |h| && Field(Patched(h, i), at, n) == v
  {
    hide HeaderWrites, Patched, ToLE;
    PatchedHolds(h, i, Write(at, ToLE(v, n)));
    FromToLE(v, n);
    SmallMod(v, Pow256(n));
  }

  /** What the kernel reads back from the patched header, by protocol version. */
  lemma PatchedFields(h: seq<byte>, i: Inputs)
    requires HEADER_END <= |h| && i.Valid()
    ensures var s, r := SetupOf(h), Patched(h, i);
            var p, addr := Place(s, i.cmdlineSize), InitrdAddr(InitrdMax(s, i.lowmem), i.initrdSize);
            && Field(r, 0x218, 4) == addr && Field(r, 0x21c, 4) == i.initrdSize
            && (s.protocol >= 0x202 ==> Field(r, 0x228, 4) == p.cmdline)
            && (s.protocol >= 0x200 ==> r[0x210] == 0xB0)
            && (s.protocol >= 0x201 ==> r[0x211] >= 0x80 && r[0x211] % 0x80 == h[0x211] % 0x80)
            && (s.protocol < 0x202 ==> Field(r, 0x20, 2) == 0xA33F && Field(r, 0x22, 2) == Offset(p) % 65536)
            && (s.protocol >= 0x201 ==> Field(r, 0x224, 2) == Minus(Offset(p), 0x200) % 65536)
  {
    hide Patched, ToLE, PutAll, FromLE, Minus, RoundDown;
    var s, r := SetupOf(h), Patched(h, i);
    var p, addr := Place(s, i.cmdlineSize), InitrdAddr(InitrdMax(s, i.lowmem), i.initrdSize);
    WordBounds(s, i);
    FourBytes();
    SegmentFields(h, i);
    InitrdListed(s, i);
    FieldHolds(h, i, 0x218, addr, 4);
    FieldHolds(h, i, 0x21c, i.initrdSize, 4);
    if s.protocol >= 0x202 {
      assert Write(0x228, ToLE(p.cmdline, 4)) == HeaderWrites(s, i)[0];
      FieldHolds(h, i, 0x228, p.cmdline, 4);
    }
    if s.protocol >= 0x200 {
      LoaderListed(s, i);
      PatchedHolds(h, i, Write(0x210, [0xB0]));
      assert r[0x210..0x211][0] == 0xB0;
    }
    if s.protocol >= 0x201 {
      HeapListed(s, i);
      PatchedHolds(h, i, Write(0x211, [WithHeap(s.flags)]));
      assert r[0x211..0x212][0] == WithHeap(s.flags);
    }
  }

  /** The address that the header hands to the kernel is the highest page at which the initrd ends by
      the limit of the header and below the top of low memory, whenever there is one. */
  lemma InitrdInHeader(h: seq<byte>, i: Inputs)
    requires HEADER_END <= |h| && i.Valid() && i.initrdSize > 0
    ensures var s, at, n := SetupOf(h), Field(Patched(h, i), 0x218, 4), Field(Patched(h, i), 0x21c, 4);
            && n == i.initrdSize && at % 4096 == 0
            && (at + n <= InitrdMax(s, i.lowmem) <==> n <= InitrdMax(s, i.lowmem))
            && (n <= InitrdMax(s, i.lowmem) ==>
                 && at + n < i.lowmem && (s.protocol >= 0x203 ==> at + n <= s.initrdLimit)
                 && forall a: nat :: a % 4096 == 0 && a + n <= InitrdMax(s, i.lowmem) ==> a <= at)
  {
    hide Patched, SetupOf, Field, InitrdAddr;
    PatchedFields(h, i);
    InitrdPlacement(SetupOf(h), i.lowmem, i.initrdSize);
  }

  lemma InitrdListed(s: Setup, i: Inputs)
    requires i.Valid()
    ensures var addr := InitrdAddr(InitrdMax(s, i.lowmem), i.initrdSize);
            && Write(0x218, ToLE(addr, 4)) in HeaderWrites(s, i)
            && Write(0x21c, ToLE(i.initrdSize, 4)) in HeaderWrites(s, i)
  {
    hide ToLE, Minus, RoundDown, Place, InitrdAddr, InitrdMax, Offset;
    var addr := InitrdAddr(InitrdMax(s, i.lowmem), i.initrdSize);
    assert Write(0x218, ToLE(addr, 4)) in InitrdWrites(addr, i.initrdSize);
    assert Write(0x21c, ToLE(i.initrdSize, 4)) in InitrdWrites(addr, i.initrdSize);
  }

  lemma LoaderListed(s: Setup, i: Inputs)
    requires i.Valid() && s.protocol >= 0x200
    ensures Write(0x210, [0xB0]) in HeaderWrites(s, i)
  {
    hide ToLE, Minus, RoundDown, Place, InitrdAddr, InitrdMax, Offset;
    assert Write(0x210, [0xB0]) in LoaderWrites(s);
  }

  lemma HeapListed(s: Setup, i: Inputs)
    requires i.Valid() && s.protocol >= 0x201
    ensures var p := Place(s, i.cmdlineSize);
            && Write(0x211, [WithHeap(s.flags)]) in HeaderWrites(s, i)
            && Write(0x224, ToLE(Minus(Offset(p), 0x200), 2)) in HeaderWrites(s, i)
  {
    hide ToLE, Minus, RoundDown, Place, InitrdAddr, InitrdMax, Offset;
    var p := Place(s, i.cmdlineSize);
    assert Write(0x211, [WithHeap(s.flags)]) in HeapWrites(s, p);
    assert Write(0x224, ToLE(Minus(Offset(p), 0x200), 2)) in HeapWrites(s, p);
  }

  /** The command line of a kernel without a command-line pointer of 32 bits lies as high as it can
      below 0x9a000, and the 16-bit offsets in the header lead to it exactly when it is neither too
      long to lie in the segment nor so long that the 32-bit difference wraps around into it. */
  lemma CmdlinePlacement(h: seq<byte>, i: Inputs)
    requires HEADER_END <= |h| && i.Valid()
    ensures var s, r, p, n := SetupOf(h), Patched(h, i), Place(SetupOf(h), i.cmdlineSize), i.cmdlineSize;
            && (!s.High() || s.protocol < 0x202 ==>
                 && p.cmdline % 16 == 0 && (p.cmdline + n <= 0x9a000 <==> n <= 0x9a000)
                 && (n <= 0x9a000 ==> forall a: nat :: a % 16 == 0 && a + n <= 0x9a000 ==> a <= p.cmdline))
            && (s.protocol < 0x202 ==>
                 && Field(r, 0x20, 2) == 0xA33F
                 && (p.segment + Field(r, 0x22, 2) == p.cmdline <==> n <= 0xa000 || n + 0x6000 > WORD))
            && (s.protocol >= 0x201 ==>
                 (p.segment + 0x200 + Field(r, 0x224, 2) == p.cmdline <==>
                   (s.High() && s.protocol >= 0x202) || n <= 0x9e00 || n + 0x6200 > WORD))
  {
    hide Patched, ToLE, PutAll, FromLE, HeaderWrites, Minus, RoundDown, SetupOf, Offset;
    var s, p, n := SetupOf(h), Place(SetupOf(h), i.cmdlineSize), i.cmdlineSize;
    HighestBelow(n);
    WordBounds(s, i);
    SegmentFields(h, i);
    OffsetReaches(p);
    HeapReaches(p);
    InSegment(n, 0);
    InSegment(n, 0x200);
  }

  lemma HighestBelow(n: nat)
    requires n < WORD
    ensures var c := RoundDown(Minus(0x9a000, n), 16);
            && c % 16 == 0 && (c + n <= 0x9a000 <==> n <= 0x9a000)
            && (n <= 0x9a000 ==> forall a: nat :: a % 16 == 0 && a + n <= 0x9a000 ==> a <= c)
  {
    RoundDownMultiple(Minus(0x9a000, n), 16);
    if n <= 0x9a000 {
      WordDifference(0x9a000, n);
    } else {
      WordWraps(0x9a000, n);
    }
  }

  /** When the command line of an old kernel is at least d into its segment, and at most 64 KB
      after that. */
  lemma InSegment(n: nat, d: nat)
    requires n < WORD && d % 16 == 0 && d <= 0x200
    ensures 0x90000 + d <= RoundDown(Minus(0x9a000, n), 16) < 0xa0000 + d <==>
              n + d <= 0xa000 || n + 0x6000 + d > WORD
  {
    if n <= 0x9a000 {
      WordDifference(0x9a000, n);
    } else {
      WordWraps(0x9a000, n);
    }
  }

  lemma OffsetReaches(p: Placement)
    requires p.segment < WORD && p.cmdline < WORD
    ensures p.segment + Offset(p) % 65536 == p.cmdline <==> p.segment <= p.cmdline < p.segment + 65536
  {
    if p.segment <= p.cmdline {
      WordDifference(p.cmdline, p.segment);
    }
  }

  lemma HeapReaches(p: Placement)
    requires p.segment + 0x200 < WORD && p.cmdline < WORD
    ensures p.segment + 0x200 + Minus(Offset(p), 0x200) % 65536 == p.cmdline <==>
              p.segment + 0x200 <= p.cmdline < p.segment + 0x200 + 65536
  {
    MinusTwice(p.cmdline - p.segment, 0x200);
    OffsetReaches(p.(segment := p.segment + 0x200));
  }

  /** Subtracting in two steps is subtracting at once. */
  lemma MinusTwice(a: int, b: nat)
    requires b < WORD
    ensures (a % WORD - b) % WORD == (a - b) % WORD
  {
  }

  /** The 16-bit fields: the old pointer to the command line, and the end of the heap. */
  lemma SegmentFields(h: seq<byte>, i: Inputs)
    requires HEADER_END <= |h| && i.Valid()
    ensures var s, r, p := SetupOf(h), Patched(h, i), Place(SetupOf(h), i.cmdlineSize);
            && (s.protocol < 0x202 ==> Field(r, 0x20, 2) == 0xA33F && Field(r, 0x22, 2) == Offset(p) % 65536)
            && (s.protocol >= 0x201 ==> Field(r, 0x224, 2) == Minus(Offset(p), 0x200) % 65536)
  {
    hide Patched, ToLE, PutAll, FromLE, HeaderWrites, Minus, RoundDown, SetupOf, Offset;
    var s, p := SetupOf(h), Place(SetupOf(h), i.cmdlineSize);
    if s.protocol < 0x202 {
      CmdlineListed(s, i);
      FourBytes();
      FieldHolds(h, i, 0x20, 0xA33F, 2);
      CutHolds(h, i, 0x22, Offset(p));
    }
    if s.protocol >= 0x201 {
      HeapListed(s, i);
      CutHolds(h, i, 0x224, Minus(Offset(p), 0x200));
    }
  }

  lemma CutHolds(h: seq<byte>, i: Inputs, at: nat, v: nat)
    requires HEADER_END <= |h| && i.Valid() && Write(at, ToLE(v, 2)) in HeaderWrites(SetupOf(h), i)
    ensures at + 2 <= |h| && Field(Patched(h, i), at, 2) == v % 65536
  {
    hide HeaderWrites, Patched, ToLE;
    PatchedHolds(h, i, Write(at, ToLE(v, 2)));
    FromToLE(v, 2);
    FourBytes();
  }

  lemma CmdlineListed(s: Setup, i: Inputs)
    requires i.Valid() && s.protocol < 0x202
    ensures Write(0x20, ToLE(0xA33F, 2)) in HeaderWrites(s, i)
    ensures Write(0x22, ToLE(Offset(Place(s, i.cmdlineSize)), 2)) in HeaderWrites(s, i)
  {
    hide ToLE, Minus, RoundDown, Place, InitrdAddr, InitrdMax, Offset;
    var p := Place(s, i.cmdlineSize);
    assert Write(0x20, ToLE(0xA33F, 2)) in CmdlineWrites(s, p);
    assert Write(0x22, ToLE(Offset(p), 2)) in CmdlineWrites(s, p);
  }

  lemma WordBounds(s: Setup, i: Inputs)
    requires i.Valid()
    ensures Place(s, i.cmdlineSize).cmdline < WORD
    ensures InitrdAddr(InitrdMax(s, i.lowmem), i.initrdSize) < WORD
  {
  }

  /** A header decides the same whatever follows it. */
  lemma PatchedPrefix(a: seq<byte>, b: seq<byte>, i: Inputs)
    requires HEADER_END <= |a| && i.Valid()
    ensures SetupOf(a + b) == SetupOf(a) && Patched(a + b, i) == Patched(a, i) + b
  {
    hide PutAll, HeaderWrites;
    assert (a + b)[0x202..0x206] == a[0x202..0x206];
    assert (a + b)[0x206..0x208] == a[0x206..0x208];
    assert (a + b)[0x22c..0x230] == a[0x22c..0x230];
    forall w | w in HeaderWrites(SetupOf(a), i) ensures w.Fits(|a|) {
      WritesMayChange(SetupOf(a), i, w);
    }
    PutAllPrefix(a, b, HeaderWrites(SetupOf(a), i));
  }

  /** Patching keeps what it decides by, so patching again changes nothing. */
  lemma PatchedTwice(h: seq<byte>, i: Inputs)
    requires HEADER_END <= |h| && i.Valid()
    ensures Patched(Patched(h, i), i) == Patched(h, i)
  {
    hide Patched, HeaderWrites, MayChange, FromLE;
    var r := Patched(h, i);
    DecisionKept(h, i);
    forall k | 0 <= k < |h| ensures Patched(r, i)[k] == r[k] {
      if MayChange(SetupOf(h).protocol, k) {
        var w := WriteOf(SetupOf(h), i, k);
        PatchedHolds(h, i, w);
        PatchedHolds(r, i, w);
        assert r[k] == r[w.at..w.at + |w.bytes|][k - w.at];
        assert Patched(r, i)[k] == Patched(r, i)[w.at..w.at + |w.bytes|][k - w.at];
      } else {
        PatchedKeeps(r, i, k);
      }
    }
  }

  /** The patched header takes the same writes, and keeps the magic number and the number of
      sectors. */
  lemma DecisionKept(h: seq<byte>, i: Inputs)
    requires HEADER_END <= |h| && i.Valid()
    ensures var s, s' := SetupOf(h), SetupOf(Patched(h, i));
            s' == s.(flags := s'.flags) && HeaderWrites(s', i) == HeaderWrites(s, i)
  {
    hide Patched, HeaderWrites, FromLE;
    var s, r := SetupOf(h), Patched(h, i);
    forall k | 0x202 <= k < 0x208 || 0x22c <= k < 0x230 || k == 0x1f1 ensures r[k] == h[k] {
      PatchedKeeps(h, i, k);
    }
    assert r[0x202..0x206] == h[0x202..0x206];
    assert r[0x206..0x208] == h[0x206..0x208];
    assert r[0x22c..0x230] == h[0x22c..0x230];
    if s.protocol >= 0x201 {
      HeapListed(s, i);
      PatchedHolds(h, i, Write(0x211, [WithHeap(s.flags)]));
      assert r[0x211..0x212][0] == WithHeap(s.flags);
    } else {
      PatchedKeeps(h, i, 0x211);
    }
    SameWrites(s, SetupOf(r), i);
  }

  lemma SameWrites(s: Setup, s': Setup, i: Inputs)
    requires i.Valid() && s' == s.(flags := s'.flags)
    requires s'.flags == if s.protocol >= 0x201 then WithHeap(s.flags) else s.flags
    ensures HeaderWrites(s', i) == HeaderWrites(s, i)
  {
    hide Minus, RoundDown, ToLE, Offset;
    assert s'.High() == s.High();
  }

  /** Every byte that may change is written. */
  lemma WriteOf(s: Setup, i: Inputs, k: nat) returns (w: Write)
    requires i.Valid() && MayChange(s.protocol, k)
    ensures w in HeaderWrites(s, i) && w.Contains(k)
  {
    hide ToLE, Minus, RoundDown, Place, InitrdAddr, InitrdMax, Offset;
    var p, addr := Place(s, i.cmdlineSize), InitrdAddr(InitrdMax(s, i.lowmem), i.initrdSize);
    if 0x218 <= k < 0x220 {
      InitrdListed(s, i);
      w := if k < 0x21c then Write(0x218, ToLE(addr, 4)) else Write(0x21c, ToLE(i.initrdSize, 4));
    } else if k == 0x210 {
      LoaderListed(s, i);
      w := Write(0x210, [0xB0]);
    } else if k == 0x211 || 0x224 <= k < 0x226 {
      HeapListed(s, i);
      w := if k == 0x211 then Write(0x211, [WithHeap(s.flags)]) else Write(0x224, ToLE(Minus(Offset(p), 0x200), 2));
    } else if s.protocol < 0x202 {
      CmdlineListed(s, i);
      w := if k < 0x22 then Write(0x20, ToLE(0xA33F, 2)) else Write(0x22, ToLE(Offset(p), 2));
    } else {
      w := Write(0x228, ToLE(p.cmdline, 4));
      assert w == HeaderWrites(s, i)[0];
    }
  }

  // ---------- placements, by the bytes of the header ----------

  /** Where everything goes, told from the bytes of a setup header. A kernel loads high if bit 0 of its
      load flags says so and its protocol has them. The command line of an old kernel ends in the last
      16 bytes below 0x9a000, and the initrd in the last page below its limit. */
  predicate LaidOut(h: seq<byte>, i: Inputs, cmdline: nat, prot: nat, initrd: nat, setupSize: nat)
    requires |h| >= HEADER_END && i.Valid()
  {
    var protocol := NumberAt(h, 0x206, 2);
    var high := protocol >= 0x200 && h[0x211] % 2 == 1;
    var limit := if protocol >= 0x203 then NumberAt(h, 0x22c, 4) else 0x37ffffff;
    var max := if limit < i.lowmem then limit else i.lowmem - 1;
    && prot == (if high then 0x100000 else 0x10000)
    && (if high && protocol >= 0x202 then cmdline == 0x20000
        else cmdline % 16 == 0 &&
             (i.cmdlineSize <= 0x9a000 ==> cmdline + i.cmdlineSize <= 0x9a000 < cmdline + i.cmdlineSize + 16))
    && setupSize == 512 + 512 * (if h[0x1f1] == 0 then 4 else h[0x1f1] as nat)
    && (if i.initrdSize == 0 then initrd == 0
        else initrd % 4096 == 0 &&
             (if i.initrdSize <= max then initrd + i.initrdSize <= max < initrd + i.initrdSize + 4096
              else initrd + i.initrdSize > max))
  }

  lemma HeaderLaidOut(h: seq<byte>, i: Inputs)
    requires |h| >= HEADER_END && i.Valid()
    ensures var s := SetupOf(h);
            LaidOut(h, i, Place(s, i.cmdlineSize).cmdline, Place(s, i.cmdlineSize).prot,
                    InitrdAddr(InitrdMax(s, i.lowmem), i.initrdSize), SetupSize(s))
  {
    hide FromLE, RoundDown, Minus;
    var max, n := InitrdMax(SetupOf(h), i.lowmem), i.initrdSize;
    OldCmdline(i.cmdlineSize);
    if n > 0 {
      PageBelow(max, n);
    }
  }

  lemma OldCmdline(n: nat)
    requires n < WORD
    ensures var c := RoundDown(Minus(0x9a000, n), 16);
            c % 16 == 0 && (n <= 0x9a000 ==> c + n <= 0x9a000 < c + n + 16)
  {
    hide RoundDown;
    MultipleAbove(Minus(0x9a000, n), 16);
    if n <= 0x9a000 {
      WordDifference(0x9a000, n);
    }
  }

  /** The patched header by its bytes: a recent kernel that loads high has its command line at 0x20000,
      0xfe00 behind the heap's beginning; any other at the highest multiple of 16 at which it ends by
      0x9a000, and both offsets lead there from the segment 0x9000. */
  lemma OffsetsByBytes(h: seq<byte>, i: Inputs)
    requires HEADER_END <= |h| && i.Valid() && i.cmdlineSize <= 0x9e00
    ensures var r, protocol, c := Patched(h, i), NumberAt(h, 0x206, 2), (0x9a000 - i.cmdlineSize) / 16 * 16;
            if protocol >= 0x202 && h[0x211] % 2 == 1 then
              NumberAt(r, 0x228, 4) == 0x20000 && NumberAt(r, 0x224, 2) == 0xfe00
            else
              && (protocol >= 0x202 ==> NumberAt(r, 0x228, 4) == c)
              && (protocol < 0x202 ==> NumberAt(r, 0x20, 2) == 0xA33F && 0x90000 + NumberAt(r, 0x22, 2) == c)
              && (protocol >= 0x201 ==> 0x90200 + NumberAt(r, 0x224, 2) == c)
  {
    hide Patched, FromLE, RoundDown, Minus;
    PatchedFields(h, i);
    OldCmdline(i.cmdlineSize);
    HighestMultiple(0x9a000 - i.cmdlineSize, RoundDown(Minus(0x9a000, i.cmdlineSize), 16));
    RecentOffsets();
    OldOffsets((0x9a000 - i.cmdlineSize) / 16 * 16);
  }

  lemma HighestMultiple(end: nat, c: nat)
    requires c % 16 == 0 && c <= end < c + 16
    ensures c == end / 16 * 16
  {
  }

  lemma RecentOffsets()
    ensures Minus(Minus(0x20000, 0x10000), 0x200) % 65536 == 0xfe00
  {
  }

  lemma OldOffsets(c: nat)
    ensures 0x90200 <= c < 0xa0000 ==>
              && Minus(c, 0x90000) % 65536 == c - 0x90000
              && Minus(Minus(c, 0x90000), 0x200) % 65536 == c - 0x90200
  {
    if 0x90200 <= c < 0xa0000 {
      WordDifference(c, 0x90000);
      WordDifference(c - 0x90000, 0x200);
    }
  }

  lemma PageBelow(max: nat, n: nat)
    requires max < WORD && 0 < n < WORD
    ensures var a := RoundDown(Minus(max, n), 4096);
            a % 4096 == 0 && if n <= max then a + n <= max < a + n + 4096 else a + n > max
  {
    hide RoundDown;
    MultipleAbove(Minus(max, n), 4096);
    if n <= max {
      WordDifference(max, n);
    } else {
      WordWraps(max, n);
    }
  }

  // ---------- parse_bzimage ----------

  class LinuxbootArgs {
    var setupAddr: nat
    var cmdlineAddr: nat
    var kernelAddr: nat
    var initrdAddr: nat
    var setupSize: nat
    var kernelSize: nat
    var cmdlineSize: nat
    var vmlinuzSize: nat
    var initrdSize: nat

    constructor ()
    {
    }

    predicate PlacedFor(s: Setup, i: Inputs)
      requires i.lowmem > 0
      reads this
    {
      var p := Place(s, i.cmdlineSize);
      cmdlineAddr == p.cmdline && kernelAddr == p.prot && setupSize == SetupSize(s)
      && initrdAddr == InitrdAddr(InitrdMax(s, i.lowmem), i.initrdSize)
    }
  }

  lemma MaskIs(x: nat)
    requires x < WORD
    ensures And(x, WORD - 16, WORD_BITS) == RoundDown(x, 16)
    ensures And(x, WORD - 4096, WORD_BITS) == RoundDown(x, 4096)
  {
    hide And, RoundDown;
    assert Pow2(4) == 16;
    assert Pow2(8) == 256;
    assert Pow2(12) == 4096;
    assert Pow2(16) == 65536;
    assert Pow2(24) == 16777216;
    assert Pow2(28) == 268435456;
    assert Pow2(32) == WORD;
    MaskRoundsDown(x, 4, WORD_BITS);
    MaskRoundsDown(x, 12, WORD_BITS);
  }

  /** Little-endian store into the header, which lies at p and has been patched by ws so far. */
  method StoreField(mem: array<byte>, ghost m: seq<byte>, p: nat, ghost h: seq<byte>, ghost ws: seq<Write>,
                    at: nat, b: seq<byte>) returns (ghost next: seq<Write>)
    requires mem.Length == |m| && p + |h| <= |m| && at + |b| <= |h|
    requires mem[..] == Patch(m, p, PutAll(h, ws))
    modifies mem
    ensures next == ws + [Write(at, b)] && mem[..] == Patch(m, p, PutAll(h, next))
  {
    hide Patch, PutAll;
    next := ws + [Write(at, b)];
    PutSnoc(h, ws, Write(at, b));
    PatchInside(m, p, PutAll(h, ws), at, b);
    Store(mem, p + at, b);
  }

  lemma PutSnoc(h: seq<byte>, ws: seq<Write>, w: Write)
    requires w.Fits(|h|)
    ensures PutAll(h, ws + [w]) == Patch(PutAll(h, ws), w.at, w.bytes)
  {
    assert (ws + [w])[..|ws|] == ws;
  }

  /** A byte of the header that no write so far has touched. */
  lemma HeaderByte(m: seq<byte>, p: nat, h: seq<byte>, ws: seq<Write>, k: nat)
    requires p + |h| <= |m| && k < |h| && forall w | w in ws :: !w.Contains(k)
    ensures Patch(m, p, PutAll(h, ws))[p + k] == h[k]
  {
    PutAllKeeps(h, ws, k);
  }

  /** The header fields as they lie in memory. */
  lemma FieldsInMemory(m: seq<byte>, p: nat, n: nat)
    requires HEADER_END <= n && p + n <= |m|
    ensures var s := SetupOf(m[p..p + n]);
            && s.magic == FromLE(m[p + 0x202..p + 0x206]) && s.protocol == FromLE(m[p + 0x206..p + 0x208])
            && s.initrdLimit == FromLE(m[p + 0x22c..p + 0x230])
            && s.flags == m[p + 0x211] && s.sectors == m[p + 0x1f1]
  {
    hide FromLE;
    SliceOfSlice(m, p, n, 0x202, 4);
    SliceOfSlice(m, p, n, 0x206, 2);
    SliceOfSlice(m, p, n, 0x22c, 4);
  }

  /** parse_bzimage: refuses what lacks the magic number, and otherwise places the kernel and
      patches the header. */
  method ParseBzimage(mem: array<byte>, args: LinuxbootArgs, lowmem: nat, ghost n: nat) returns (ok: bool)
    requires HEADER_END <= n && args.setupAddr + n <= mem.Length
    requires Inputs(args.cmdlineSize, args.initrdSize, lowmem).Valid()
    modifies mem, args`cmdlineAddr, args`kernelAddr, args`initrdAddr, args`setupSize, args`kernelSize
    ensures var h := old(mem[args.setupAddr..args.setupAddr + n]);
            var i := Inputs(args.cmdlineSize, args.initrdSize, lowmem);
            && ok == (SetupOf(h).magic == MAGIC)
            && mem[..] == (if ok then Patch(old(mem[..]), args.setupAddr, Patched(h, i)) else old(mem[..]))
            && (ok <==> Stretch(h, 0x202, 4) == [0x48, 0x64, 0x72, 0x53])
            && (ok ==> args.PlacedFor(SetupOf(h), i))
            && (ok ==> LaidOut(h, i, args.cmdlineAddr, args.kernelAddr, args.initrdAddr, args.setupSize))
            && (!ok ==> unchanged(args))
  {
    hide LaidOut, Stretch, InitrdAddr, Patch, PutAll, SetupOf, FromLE, ToLE, RoundDown, And;
    hide HeaderWrites, Patched, Minus, Place, InitrdMax;
    var p := args.setupAddr;
    ghost var h := mem[p..p + n];
    ghost var s := SetupOf(h);
    assert mem[..][p..p + n] == h;
    FieldsInMemory(mem[..], p, n);
    MagicBytes(h);
    HeaderLaidOut(h, Inputs(args.cmdlineSize, args.initrdSize, lowmem));
    assert mem[..][p + 0x202..p + 0x206] == mem[p + 0x202..p + 0x206];
    if FromLE(mem[p + 0x202..p + 0x206]) != MAGIC {
      return false;
    }
    assert mem[..][p + 0x206..p + 0x208] == mem[p + 0x206..p + 0x208];
    var protocol := FromLE(mem[p + 0x206..p + 0x208]);
    var place := PlaceKernel(protocol, mem[p + 0x211], args.cmdlineSize, s);
    assert mem[..][p + 0x22c..p + 0x230] == mem[p + 0x22c..p + 0x230];
    var initrdMax := LimitInitrd(protocol, FromLE(mem[p + 0x22c..p + 0x230]), lowmem, s);
    var initrdAddr := PatchHeader(mem, p, protocol, place, initrdMax, args.initrdSize, h);
    PatchedWrites(h, Inputs(args.cmdlineSize, args.initrdSize, lowmem));
    SectorsKept(h, Inputs(args.cmdlineSize, args.initrdSize, lowmem), mem[..], old(mem[..]), p);
    var setupSize := mem[p + 0x1f1] as nat;
    if setupSize == 0 {
      setupSize := 4;
    }
    args.setupSize := (setupSize + 1) * 512;
    args.kernelSize := Minus(args.vmlinuzSize, setupSize);
    args.initrdAddr := initrdAddr;
    args.kernelAddr := place.prot;
    args.cmdlineAddr := place.cmdline;
    return true;
  }

  /** The magic number spells "HdrS". */
  lemma MagicBytes(h: seq<byte>)
    requires |h| >= HEADER_END
    ensures SetupOf(h).magic == MAGIC <==> Stretch(h, 0x202, 4) == [0x48, 0x64, 0x72, 0x53]
  {
    hide FromLE;
    FourIs(h[0x202..0x206], [0x48, 0x64, 0x72, 0x53]);
    FourFrom([0x48, 0x64, 0x72, 0x53]);
  }

  /** Four bytes are told by their number. */
  lemma FourIs(a: seq<byte>, b: seq<byte>)
    requires |a| == |b| == 4
    ensures FromLE(a) == FromLE(b) <==> a == b
  {
    hide FromLE, ToLE;
    ToFromLE(a);
    ToFromLE(b);
  }

  lemma PatchedWrites(h: seq<byte>, i: Inputs)
    requires HEADER_END <= |h| && i.Valid()
    ensures var s := SetupOf(h);
            Patched(h, i) == PutAll(h, AllWrites(s, Place(s, i.cmdlineSize),
                                                 InitrdAddr(InitrdMax(s, i.lowmem), i.initrdSize), i.initrdSize))
  {
    hide PutAll, SetupOf, Place, InitrdAddr, InitrdMax, AllWrites;
  }

  lemma SectorsKept(h: seq<byte>, i: Inputs, m: seq<byte>, m0: seq<byte>, p: nat)
    requires HEADER_END <= |h| && i.Valid() && p + |h| <= |m0| && m == Patch(m0, p, Patched(h, i))
    ensures m[p + 0x1f1] == SetupOf(h).sectors
  {
    hide Patched;
    PatchedKeeps(h, i, 0x1f1);
  }

  /** Where real-mode code, command line and kernel go, by protocol version. */
  method PlaceKernel(protocol: nat, flags: byte, cmdlineSize: nat, ghost s: Setup) returns (place: Placement)
    requires protocol == s.protocol && flags == s.flags && cmdlineSize < WORD
    ensures place == Place(s, cmdlineSize)
  {
    hide And, RoundDown, Minus;
    MinusInWord(0x9a000, cmdlineSize);
    MaskIs(Minus(0x9a000, cmdlineSize));
    if protocol < 0x200 || flags % 2 != 1 {
      place := Placement(0x90000, And(Minus(0x9a000, cmdlineSize), WORD - 16, WORD_BITS), 0x10000);
    } else if protocol < 0x202 {
      place := Placement(0x90000, And(Minus(0x9a000, cmdlineSize), WORD - 16, WORD_BITS), 0x100000);
    } else {
      place := Placement(0x10000, 0x20000, 0x100000);
    }
  }

  lemma MinusInWord(a: nat, b: nat)
    ensures Minus(a, b) < WORD
  {
  }

  /** The limit for the end of the initrd. */
  method LimitInitrd(protocol: nat, limit: nat, lowmem: nat, ghost s: Setup) returns (max: nat)
    requires protocol == s.protocol && limit == s.initrdLimit && 0 < lowmem < WORD
    ensures max == InitrdMax(s, lowmem) && max < lowmem
  {
    if protocol >= 0x203 {
      max := limit;
    } else {
      max := 0x37ffffff;
    }
    if max > lowmem - 1 {
      max := lowmem - 1;
    }
  }

  /** All writes into the header. */
  method PatchHeader(mem: array<byte>, p: nat, protocol: nat, place: Placement, initrdMax: nat, initrdSize: nat,
                     ghost h: seq<byte>) returns (initrdAddr: nat)
    requires HEADER_END <= |h| && p + |h| <= mem.Length && mem[..][p..p + |h|] == h
    requires protocol == SetupOf(h).protocol && initrdMax < WORD && initrdSize < WORD
    modifies mem
    ensures initrdAddr == InitrdAddr(initrdMax, initrdSize)
    ensures mem[..] == Patch(old(mem[..]), p, PutAll(h, AllWrites(SetupOf(h), place, initrdAddr, initrdSize)))
  {
    hide Patch, FromLE, ToLE, RoundDown, And, Minus, SetupOf, PutAll;
    ghost var m, s, ws := mem[..], SetupOf(h), [];
    PatchSame(m, p, |h|);
    NoWrites(h);
    if protocol >= 0x202 {
      ws := StoreField(mem, m, p, h, ws, 0x228, ToLE(place.cmdline, 4));
    } else {
      ws := StoreField(mem, m, p, h, ws, 0x20, ToLE(0xA33F, 2));
      ws := StoreField(mem, m, p, h, ws, 0x22, ToLE(Minus(place.cmdline, place.segment), 2));
    }
    assert ws == CmdlineWrites(s, place);
    if protocol >= 0x200 {
      ws := StoreField(mem, m, p, h, ws, 0x210, [0xB0]);
    }
    assert ws == CmdlineWrites(s, place) + LoaderWrites(s);
    if protocol >= 0x201 {
      FlagsUntouched(m, p, h, place, ws);
      ws := StoreField(mem, m, p, h, ws, 0x211, [WithHeap(mem[p + 0x211])]);
      ws := StoreField(mem, m, p, h, ws, 0x224, ToLE(Minus(Minus(place.cmdline, place.segment), 0x200), 2));
    }
    assert ws == CmdlineWrites(s, place) + LoaderWrites(s) + HeapWrites(s, place);
    initrdAddr := 0;
    if initrdSize > 0 {
      MinusInWord(initrdMax, initrdSize);
      MaskIs(Minus(initrdMax, initrdSize));
      initrdAddr := And(Minus(initrdMax, initrdSize), WORD - 4096, WORD_BITS);
    }
    ws := StoreField(mem, m, p, h, ws, 0x218, ToLE(initrdAddr, 4));
    ws := StoreField(mem, m, p, h, ws, 0x21c, ToLE(initrdSize, 4));
    assert ws == AllWrites(s, place, initrdAddr, initrdSize);
  }

  lemma NoWrites(h: seq<byte>)
    ensures PutAll(h, []) == h
  {
  }

  lemma FlagsUntouched(m: seq<byte>, p: nat, h: seq<byte>, place: Placement, ws: seq<Write>)
    requires HEADER_END <= |h| && p + |h| <= |m| && ws == CmdlineWrites(SetupOf(h), place) + LoaderWrites(SetupOf(h))
    ensures Patch(m, p, PutAll(h, ws))[p + 0x211] == SetupOf(h).flags
  {
    hide Patch, PutAll, ToLE, Offset, FromLE;
    HeaderByte(m, p, h, ws, 0x211);
  }
}
