/** What a reader of the finished memory map finds, byte by byte: struct e820map is a count of 4 bytes and
    entries of 20 bytes, each a 64-bit address, a 64-bit size and a 32-bit type (section 15.1 of the ACPI
    specification, "INT 15H, E820H"). */
module MapTheorems {
  import opened Bytes
  import opened FwCfg
  import opened Malloc
  import opened MapExtraction
  import opened MapLayout
  import opened MemoryMap

  /** The k-th entry of the map at p gives address a a type. */
  predicate Gives(m: seq<byte>, p: nat, k: nat, a: nat, kind: nat) {
    var at := p + 4 + 20 * k;
    && k < NumberAt(m, p, 4) && at + 20 <= |m|
    && NumberAt(m, at, 8) <= a < NumberAt(m, at, 8) + NumberAt(m, at + 8, 8)
    && NumberAt(m, at + 16, 4) == kind
  }

  ghost predicate Declared(m: seq<byte>, p: nat, a: nat, kind: nat) {
    exists k: nat :: Gives(m, p, k, a, kind)
  }

  /** The map declares the ACPI tables as type 4, and the EBDA with the MP table, the firmware and the
      MMCONFIG window as type 2. */
  ghost predicate PlatformDeclared(m: seq<byte>, p: nat, haveMmconfig: bool) {
    && (forall a: nat | 0xd0000 <= a < 0xf0000 :: Declared(m, p, a, 4))
    && (forall a: nat | 0x9fc00 <= a < 0xa0000 :: Declared(m, p, a, 2))
    && (forall a: nat | 0xf0000 <= a < 0x100000 :: Declared(m, p, a, 2))
    && (haveMmconfig ==> forall a: nat | 0xb0000000 <= a < 0xc0000000 :: Declared(m, p, a, 2))
  }

  /** The fields of an entry, where the specification puts them. */
  lemma EntryRead(e: Entry)
    requires Fits(e)
    ensures var b := EntryBytes(e);
            NumberAt(b, 0, 8) == e.addr && NumberAt(b, 8, 8) == e.size && NumberAt(b, 16, 4) == e.kind
  {
    hide FromLE, ToLE, Pow256;
    var b := EntryBytes(e);
    assert b[0..8] == ToLE(e.addr, 8) && b[8..16] == ToLE(e.size, 8) && b[16..20] == ToLE(e.kind, 4);
    FromToLE(e.addr, 8);
    FromToLE(e.size, 8);
    FromToLE(e.kind, 4);
    EightBytes();
    SmallMod(e.addr, DWORD);
    SmallMod(e.size, DWORD);
    SmallMod(e.kind, WORD);
  }

  lemma NameOfFile()
    ensures E820_NAME == Ascii("etc/e820") + [0]
  {
  }

  lemma StretchInside(m: seq<byte>, p: nat, n: nat, lo: nat, k: nat)
    requires p + n <= |m| && lo + k <= n
    ensures Stretch(m, p + lo, k) == Stretch(m[p..p + n], lo, k)
  {
    SliceOfSlice(m, p, n, lo, k);
  }

  /** What the bytes of a map say of its k-th entry. */
  lemma MapRead(m: seq<byte>, p: nat, es: seq<Entry>, k: nat, a: nat, kind: nat)
    requires |es| < WORD && p + |MapBytes(es)| <= |m| && m[p..p + |MapBytes(es)|] == MapBytes(es)
    requires k < |es| && Fits(es[k])
    ensures NumberAt(m, p, 4) == |es|
    ensures Gives(m, p, k, a, kind) <==> es[k].Covers(a) && es[k].kind == kind
  {
    hide EntryBytes, AllEntryBytes, ToLE, FromLE, Stretch;
    var n, at := |MapBytes(es)|, 4 + 20 * k;
    CountRead(es);
    StretchInside(m, p, n, 0, 4);
    EntryInMap(es, k);
    StretchInside(m, p, n, at, 8);
    StretchInside(m, p, n, at + 8, 8);
    StretchInside(m, p, n, at + 16, 4);
    StretchInside(MapBytes(es), at, 20, 0, 8);
    StretchInside(MapBytes(es), at, 20, 8, 8);
    StretchInside(MapBytes(es), at, 20, 16, 4);
    EntryRead(es[k]);
  }

  lemma CountRead(es: seq<Entry>)
    requires |es| < WORD
    ensures NumberAt(MapBytes(es), 0, 4) == |es|
  {
    hide AllEntryBytes, ToLE, FromLE, Pow256;
    assert MapBytes(es)[0..4] == ToLE(|es|, 4);
    FromToLE(|es|, 4);
    FourBytes();
    SmallMod(|es|, WORD);
  }

  lemma EntryInMap(es: seq<Entry>, k: nat)
    requires k < |es|
    ensures 4 + 20 * k + 20 <= |MapBytes(es)| && MapBytes(es)[4 + 20 * k..4 + 20 * k + 20] == EntryBytes(es[k])
  {
    hide EntryBytes, AllEntryBytes, ToLE;
    EntryInBytes(es, k);
    var b := MapBytes(es);
    assert b[4..|b|] == AllEntryBytes(es);
    SliceOfSlice(b, 4, |b| - 4, 20 * k, 20);
  }

  lemma FrontAt(file: seq<Entry>, haveMmconfig: bool, last: Entry, k: nat)
    requires k < if haveMmconfig then 5 else 4
    ensures var es := Built(file, haveMmconfig, last);
            k < |es| && es[k] == if k < 4 then FIXED[k] else MMCONFIG
  {
    hide SplitLow;
  }

  /** The map that extract_e820 leaves in memory declares what the firmware occupies. */
  lemma BuiltDeclares(m: seq<byte>, p: nat, file: seq<Entry>, haveMmconfig: bool, last: Entry)
    requires var es := Built(file, haveMmconfig, last);
             |es| < WORD && p + |MapBytes(es)| <= |m| && m[p..p + |MapBytes(es)|] == MapBytes(es)
    ensures PlatformDeclared(m, p, haveMmconfig)
  {
    hide Built, MapBytes, Gives;
    var es := Built(file, haveMmconfig, last);
    forall a: nat | 0xd0000 <= a < 0xf0000 ensures Declared(m, p, a, 4) {
      FrontAt(file, haveMmconfig, last, 2);
      MapRead(m, p, es, 2, a, 4);
    }
    forall a: nat | 0x9fc00 <= a < 0xa0000 ensures Declared(m, p, a, 2) {
      FrontAt(file, haveMmconfig, last, 1);
      MapRead(m, p, es, 1, a, 2);
    }
    forall a: nat | 0xf0000 <= a < 0x100000 ensures Declared(m, p, a, 2) {
      FrontAt(file, haveMmconfig, last, 3);
      MapRead(m, p, es, 3, a, 2);
    }
    if haveMmconfig {
      forall a: nat | 0xb0000000 <= a < 0xc0000000 ensures Declared(m, p, a, 2) {
        FrontAt(file, haveMmconfig, last, 4);
        MapRead(m, p, es, 4, a, 2);
      }
    }
  }

  // ---------- the whole map ----------

  /** An entry gives address a a type. */
  predicate Types(es: seq<Entry>, a: nat, kind: nat) {
    exists k :: 0 <= k < |es| && es[k].kind == kind && es[k].Covers(a)
  }

  /** What the firmware itself declares with an MMCONFIG window. */
  predicate FirmwareTypes(a: nat, kind: nat) {
    || (kind == 1 && a < 0x9fc00)
    || (kind == 2 && (0x9fc00 <= a < 0xa0000 || 0xf0000 <= a < 0x100000 || 0xb0000000 <= a < 0xc0000000))
    || (kind == 4 && 0xd0000 <= a < 0xf0000)
  }

  /** The map in memory declares what the firmware does and, from 1 MB on, what the platform did; no more. */
  ghost predicate MapIs(m: seq<byte>, p: nat, file: seq<Entry>) {
    forall a: nat, kind: nat :: Declared(m, p, a, kind) <==>
      FirmwareTypes(a, kind) || (a >= 0x100000 && Types(file, a, kind))
  }

  lemma DeclaredIs(m: seq<byte>, p: nat, es: seq<Entry>, a: nat, kind: nat)
    requires |es| < WORD && p + |MapBytes(es)| <= |m| && m[p..p + |MapBytes(es)|] == MapBytes(es) && AllFit(es)
    ensures Declared(m, p, a, kind) <==> Types(es, a, kind)
  {
    hide Gives, MapBytes, Fits, Entry.Covers;
    CountHere(m, p, es);
    if Declared(m, p, a, kind) {
      var k: nat :| Gives(m, p, k, a, kind);
      GivesInside(m, p, k, a, kind);
      assert es[k] in es;
      MapRead(m, p, es, k, a, kind);
    }
    if Types(es, a, kind) {
      var k :| 0 <= k < |es| && es[k].kind == kind && es[k].Covers(a);
      MapRead(m, p, es, k, a, kind);
    }
  }

  lemma CountHere(m: seq<byte>, p: nat, es: seq<Entry>)
    requires |es| < WORD && p + |MapBytes(es)| <= |m| && m[p..p + |MapBytes(es)|] == MapBytes(es)
    ensures NumberAt(m, p, 4) == |es|
  {
    hide AllEntryBytes, ToLE, FromLE, Stretch;
    CountRead(es);
    StretchInside(m, p, |MapBytes(es)|, 0, 4);
  }

  lemma GivesInside(m: seq<byte>, p: nat, k: nat, a: nat, kind: nat)
    requires Gives(m, p, k, a, kind)
    ensures k < NumberAt(m, p, 4)
  {
    hide NumberAt;
  }

  lemma TypesConcat(s: seq<Entry>, t: seq<Entry>, a: nat, kind: nat)
    ensures Types(s + t, a, kind) <==> Types(s, a, kind) || Types(t, a, kind)
  {
    hide Entry.Covers;
    var u := s + t;
    if Types(u, a, kind) {
      var k :| 0 <= k < |u| && u[k].kind == kind && u[k].Covers(a);
      assert if k < |s| then s[k] == u[k] else t[k - |s|] == u[k];
    }
    if Types(s, a, kind) {
      var k :| 0 <= k < |s| && s[k].kind == kind && s[k].Covers(a);
      assert u[k] == s[k];
    }
    if Types(t, a, kind) {
      var k :| 0 <= k < |t| && t[k].kind == kind && t[k].Covers(a);
      assert u[|s| + k] == t[k];
    }
  }

  lemma FrontTypes(a: nat, kind: nat)
    ensures Types(FIXED + [MMCONFIG], a, kind) <==> FirmwareTypes(a, kind)
  {
    var s := FIXED + [MMCONFIG];
    assert |s| == 5 && s[0] == Entry(0, 0x9fc00, 1) && s[1] == Entry(0x9fc00, 0x400, 2);
    assert s[2] == Entry(0xd0000, 0x20000, 4) && s[3] == Entry(0xf0000, 0x10000, 2);
    assert s[4] == Entry(0xb0000000, 0x10000000, 2);
  }

  lemma SplitTypes(file: seq<Entry>, low: nat, a: nat, kind: nat)
    requires PlatformMap(file, low)
    ensures Types(SplitLow(file), a, kind) <==> a >= 0x100000 && Types(file, a, kind)
  {
    SplitOfPlatform(file, low);
    var s := SplitLow(file);
    hide SplitLow, PlatformMap;
    if Types(s, a, kind) {
      var k :| 0 <= k < |s| && s[k].kind == kind && s[k].Covers(a);
      if k != low { OthersAboveFirstMB(file, low, k); }
      LowIsRam(file, low);
      assert file[k].kind == kind && file[k].Covers(a);
    }
    if a >= 0x100000 && Types(file, a, kind) {
      var k :| 0 <= k < |file| && file[k].kind == kind && file[k].Covers(a);
      LowIsRam(file, low);
      assert s[k].kind == kind && s[k].Covers(a);
    }
  }

  lemma LowIsRam(file: seq<Entry>, low: nat)
    requires PlatformMap(file, low)
    ensures low < |file| && file[low].addr == 0 && file[low].kind == 1 && 0x100000 <= file[low].size
  {
  }

  /** For a map as the platform provides it, the built one is known in full. */
  lemma WholeMap(m: seq<byte>, p: nat, file: seq<Entry>, low: nat, last: Entry)
    requires var es := Built(file, true, last);
             |es| < WORD && p + |MapBytes(es)| <= |m| && m[p..p + |MapBytes(es)|] == MapBytes(es) && AllFit(file)
    requires PlatformMap(file, low)
    ensures MapIs(m, p, file)
  {
    hide Declared, Types, FirmwareTypes, MapBytes, PlatformMap, SplitLow;
    var es := Built(file, true, last);
    assert es == FIXED + [MMCONFIG] + SplitLow(file);
    BuiltFits(file, low);
    forall a: nat, kind: nat
      ensures Declared(m, p, a, kind) <==> FirmwareTypes(a, kind) || (a >= 0x100000 && Types(file, a, kind))
    {
      DeclaredIs(m, p, es, a, kind);
      TypesConcat(FIXED + [MMCONFIG], SplitLow(file), a, kind);
      FrontTypes(a, kind);
      SplitTypes(file, low, a, kind);
    }
  }

  lemma BuiltFits(file: seq<Entry>, low: nat)
    requires PlatformMap(file, low) && AllFit(file)
    ensures AllFit(FIXED + [MMCONFIG] + SplitLow(file))
  {
    SplitOfPlatform(file, low);
    var s := SplitLow(file);
    forall k | 0 <= k < |s| ensures Fits(s[k]) {
      assert file[low] in file && file[k] in file;
    }
  }

  /** Every address of every downward block is declared as ACPI memory, as long as the requests add up
      to no more than 128 KB. */
  lemma BlocksDeclared(heap: Heap, m: seq<byte>, p: nat, haveMmconfig: bool)
    requires heap.Valid() && heap.top0 == 0xf0000 && Need(heap.high) <= 128 * 1024
    requires PlatformDeclared(m, p, haveMmconfig)
    ensures forall b, a: nat | b in heap.high && b.Contains(a) :: Declared(m, p, a, 4)
  {
    hide Declared, Need;
    forall b, a: nat | b in heap.high && b.Contains(a) ensures Declared(m, p, a, 4) {
      BlocksInNvsWindow(heap, b);
    }
  }

  /** The map is built at boot, and what the firmware occupies and has allocated is declared in it. */
  method ExtractAndDeclare(dir: Directory, heap: Heap, mem: array<byte>, haveMmconfig: bool, lowmem0: nat)
    returns (ok: bool, segment: nat, lowmem: nat)
    requires heap.Valid() && heap.top0 <= mem.Length && FileOk(dir, heap.mallocTop)
    modifies heap, mem
    ensures heap.Valid() && (ok <==> FileId(dir, E820_NAME) >= 0)
    ensures ok ==> PlatformDeclared(mem[..], heap.mallocTop, haveMmconfig)
    ensures ok && haveMmconfig ==>
              var file := EntriesOf(dir[FileId(dir, E820_NAME)].data);
              (exists low: nat :: PlatformMap(file, low)) ==> MapIs(mem[..], heap.mallocTop, file)
    ensures ok && heap.top0 == 0xf0000 && Need(heap.high) <= 128 * 1024 ==>
              && segment * 16 == heap.mallocTop
              && forall b, a: nat | b in heap.high && b.Contains(a) :: Declared(mem[..], heap.mallocTop, a, 4)
  {
    hide FileId, Built, BuiltLowTop, Patch, MapBytes, EntriesOf, LastBefore, PlatformDeclared, Declared, Need;
    ghost var m := mem[..];
    ok, segment, lowmem := ExtractE820(dir, heap, mem, haveMmconfig, lowmem0);
    if ok {
      ghost var file, p := EntriesOf(dir[FileId(dir, E820_NAME)].data), heap.mallocTop;
      ghost var last := LastBefore(m, p, |file| + 5);
      ghost var es := Built(file, haveMmconfig, last);
      PatchOver(m, p, MapBytes(es), MapBytes(es));
      BuiltLength(file, haveMmconfig, last);
      assert heap.high[|heap.high| - 1] in heap.high;
      BuiltDeclares(mem[..], p, file, haveMmconfig, last);
      if haveMmconfig && exists low: nat :: PlatformMap(file, low) {
        ghost var low: nat :| PlatformMap(file, low);
        EntriesBytes(dir[FileId(dir, E820_NAME)].data);
        WholeMap(mem[..], p, file, low, last);
      }
      if heap.top0 == 0xf0000 && Need(heap.high) <= 128 * 1024 {
        ghost var b := heap.high[|heap.high| - 1];
        assert b in heap.high;
        SegmentLeadsBack(b.start);
        BlocksDeclared(heap, mem[..], p, haveMmconfig);
      }
    }
  }
}
