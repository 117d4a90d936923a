/** extract_e820 of main.c: the memory map is allocated, filled from the firmware-provided file and
    edited, all in place. */
module MapExtraction {
  import opened Bytes
  import opened FwCfg
  import opened Malloc
  import opened MapLayout
  import opened MemoryMap

  /** "etc/e820", with its NUL. */
  const E820_NAME: seq<byte> := [0x65, 0x74, 0x63, 0x2F, 0x65, 0x38, 0x32, 0x30, 0]

  const SEGMENT_UNIT: nat := 16

  /** main.c keeps only the segment of the map: the address shifted right by 4, in 16 bits. */
  function SegmentOf(address: nat): nat {
    address / SEGMENT_UNIT % 65536
  }

  /** For a 16-aligned address below 1 MB the segment leads back to the address. */
  lemma SegmentLeadsBack(address: nat)
    ensures SegmentOf(address) * SEGMENT_UNIT == address <==>
              address % SEGMENT_UNIT == 0 && address < 0x100000
  {
  }

  /** The file holds whole records, and the allocator has room for the map. */
  ghost predicate FileOk(dir: Directory, top: nat) {
    var id := FileId(dir, E820_NAME);
    id >= 0 ==>
      |dir[id].data| % ENTRY_SIZE == 0 && MAP_OFFSET + ENTRY_SIZE * (|dir[id].data| / ENTRY_SIZE + 5) <= top
  }

  /** Overwriting a run of entries of the map, whose first entry lies at base. */
  method StoreEntries(mem: array<byte>, ghost m: seq<byte>, base: nat, ghost es: seq<Entry>, k: nat, b: seq<byte>,
                      ghost new': seq<Entry>) returns (ghost next: seq<Entry>)
    requires base + |AllEntryBytes(es)| <= |m| && mem[..] == Patch(m, base, AllEntryBytes(es))
    requires k + |new'| <= |es| && b == AllEntryBytes(new')
    modifies mem
    ensures next == es[..k] + new' + es[k + |new'|..] && mem[..] == Patch(m, base, AllEntryBytes(next))
  {
    hide AllEntryBytes, Patch;
    next := es[..k] + new' + es[k + |new'|..];
    PatchEntries(es, k, new');
    PatchInside(m, base, AllEntryBytes(es), ENTRY_SIZE * k, b);
    Store(mem, base + ENTRY_SIZE * k, b);
  }

  method StoreEntry(mem: array<byte>, ghost m: seq<byte>, base: nat, ghost es: seq<Entry>, k: nat, e: Entry)
    returns (ghost next: seq<Entry>)
    requires base + |AllEntryBytes(es)| <= |m| && mem[..] == Patch(m, base, AllEntryBytes(es)) && k < |es|
    modifies mem
    ensures next == es[k := e] && mem[..] == Patch(m, base, AllEntryBytes(next))
  {
    hide AllEntryBytes, Patch, EntryBytes;
    OneEntryBytes(e);
    next := StoreEntries(mem, m, base, es, k, EntryBytes(e), [e]);
  }

  /** An entry read from memory. */
  method LoadEntry(mem: array<byte>, ghost m: seq<byte>, base: nat, ghost es: seq<Entry>, k: nat) returns (e: Entry)
    requires base + |AllEntryBytes(es)| <= |m| && mem[..] == Patch(m, base, AllEntryBytes(es))
    requires k < |es| && Fits(es[k])
    ensures e == es[k]
  {
    hide AllEntryBytes, Patch, EntryBytes, EntryOf;
    var at := base + ENTRY_SIZE * k;
    EntryInBytes(es, k);
    EntryOfBytes(es[k]);
    WindowOfPatch(m, base, AllEntryBytes(es), ENTRY_SIZE * k, ENTRY_SIZE);
    assert mem[at..at + ENTRY_SIZE] == mem[..][at..at + ENTRY_SIZE];
    e := EntryOf(mem[at..at + ENTRY_SIZE]);
  }

  lemma WindowOfPatch(m: seq<byte>, p: nat, b: seq<byte>, lo: nat, n: nat)
    requires p + |b| <= |m| && lo + n <= |b|
    ensures Patch(m, p, b)[p + lo..p + lo + n] == b[lo..lo + n]
  {
  }

  /** The search for the entry that starts at 0, and its cut at 1 MB. */
  method SplitInPlace(mem: array<byte>, ghost m: seq<byte>, base: nat, ghost es: seq<Entry>, start: nat, count: nat,
                      lowmem0: nat) returns (lowmem: nat, ghost next: seq<Entry>)
    requires base + |AllEntryBytes(es)| <= |m| && mem[..] == Patch(m, base, AllEntryBytes(es))
    requires start <= count == |es| && AllFit(es)
    modifies mem
    ensures next == es[..start] + SplitLow(es[start..]) && |next| == |es|
    ensures mem[..] == Patch(m, base, AllEntryBytes(next))
    ensures lowmem == var low := LowTop(es[start..]); if low.Some? then low.value else lowmem0
  {
    hide SplitLow, LowTop, AboveFirstMB, AllEntryBytes, Patch, EntryBytes, Fits;
    ghost var s := es[start..];
    var i := start;
    while i < count
      invariant start <= i <= count && mem[..] == Patch(m, base, AllEntryBytes(es))
      invariant forall e | e in s[..i - start] :: e.addr != 0
    {
      ghost var k := i - start;
      assert s[k] == es[i] && es[i] in es;
      var e := LoadEntry(mem, m, base, es, i);
      if e.addr == 0 {
        SplitAtFirst(s, k);
        lowmem := e.size % WORD;
        next := StoreEntry(mem, m, base, es, i, e.(addr := MB, size := (e.size - MB) % DWORD));
        CutIsAboveFirstMB(e);
        assert next == es[..start] + s[k := AboveFirstMB(s[k])];
        return;
      }
      assert s[..k + 1] == s[..k] + [s[k]];
      i := i + 1;
    }
    assert s[..|s|] == s;
    NothingToSplit(s);
    lowmem, next := lowmem0, es;
    assert es == es[..start] + s;
  }

  /** What the memory of the n-th entry of a map at p holds. */
  function LastBefore(m: seq<byte>, p: nat, n: nat): Entry {
    var lo := p + MAP_OFFSET + ENTRY_SIZE * n - ENTRY_SIZE;
    if n > 0 && lo + ENTRY_SIZE <= |m| then EntryOf(m[lo..lo + ENTRY_SIZE]) else MMCONFIG
  }

  /** The entries in front of those of the file. */
  function Front(haveMmconfig: bool): (es: seq<Entry>)
    ensures |es| == if haveMmconfig then 5 else 4
  {
    FIXED + if haveMmconfig then [MMCONFIG] else []
  }

  method FillFront(mem: array<byte>, ghost m: seq<byte>, base: nat, ghost es: seq<Entry>, haveMmconfig: bool, nr: nat)
    returns (i: nat, nr': nat, ghost next: seq<Entry>)
    requires base + |AllEntryBytes(es)| <= |m| && mem[..] == Patch(m, base, AllEntryBytes(es)) && |es| == nr >= 5
    modifies mem
    ensures i == |Front(haveMmconfig)| && nr' == (if haveMmconfig then nr else nr - 1)
    ensures next == Front(haveMmconfig) + es[i..] && mem[..] == Patch(m, base, AllEntryBytes(next))
  {
    hide AllEntryBytes, Patch;
    next, nr' := es, nr;
    next := StoreEntry(mem, m, base, next, 0, Entry(0, 639 * 1024, E820_RAM));
    next := StoreEntry(mem, m, base, next, 1, Entry(639 * 1024, 1024, E820_RESERVED));
    next := StoreEntry(mem, m, base, next, 2, Entry(0xd0000, 128 * 1024, E820_NVS));
    next := StoreEntry(mem, m, base, next, 3, Entry(0xf0000, 64 * 1024, E820_RESERVED));
    i := 4;
    if haveMmconfig {
      next := StoreEntry(mem, m, base, next, i, MMCONFIG);
      i := i + 1;
    } else {
      nr' := nr' - 1;
    }
    assert next == Front(haveMmconfig) + es[i..];
  }

  /** The entries that a map of nr entries at base holds before it is filled. */
  lemma EntriesInMemory(m: seq<byte>, base: nat, nr: nat) returns (es: seq<Entry>)
    requires base + ENTRY_SIZE * nr <= |m|
    ensures |es| == nr && m == Patch(m, base, AllEntryBytes(es)) && AllFit(es)
    ensures nr > 0 ==> base >= MAP_OFFSET ==> es[nr - 1] == LastBefore(m, base - MAP_OFFSET, nr)
  {
    hide AllEntryBytes, EntriesOf, EntryOf, EntryBytes, Patch, AllFit;
    var b := m[base..base + ENTRY_SIZE * nr];
    DivModUnique(|b|, ENTRY_SIZE, nr, 0);
    EntriesBytes(b);
    PatchSame(m, base, |b|);
    es := EntriesOf(b);
    if nr > 0 {
      LastRecord(b);
      SliceOfSlice(m, base, |b|, |b| - ENTRY_SIZE, ENTRY_SIZE);
    }
  }

  lemma LastRecord(b: seq<byte>)
    requires |b| >= ENTRY_SIZE
    ensures |EntriesOf(b)| > 0
    ensures EntriesOf(b)[|EntriesOf(b)| - 1] == EntryOf(b[|b| - ENTRY_SIZE..|b|])
  {
    hide EntryOf;
    assert b[|b| - ENTRY_SIZE..] == b[|b| - ENTRY_SIZE..|b|];
  }

  lemma StillFit(a: seq<Entry>, b: seq<Entry>, c: seq<Entry>)
    requires AllFit(a) && AllFit(b) && AllFit(c)
    ensures AllFit(a + b + c)
  {
    hide Fits;
  }

  lemma FrontFits(haveMmconfig: bool)
    ensures AllFit(Front(haveMmconfig))
  {
  }

  /** The map of nr entries at p, from the data of the file. */
  method BuildMap(mem: array<byte>, p: nat, data: seq<byte>, haveMmconfig: bool, lowmem0: nat) returns (lowmem: nat)
    requires |data| % ENTRY_SIZE == 0 && |data| / ENTRY_SIZE + 5 < WORD
    requires p + MAP_OFFSET + ENTRY_SIZE * (|data| / ENTRY_SIZE + 5) <= mem.Length
    modifies mem
    ensures var file := EntriesOf(data);
            var last := LastBefore(old(mem[..]), p, |file| + 5);
            && p + |MapBytes(Built(file, haveMmconfig, last))| <= mem.Length
            && mem[..] == Patch(old(mem[..]), p, MapBytes(Built(file, haveMmconfig, last)))
            && lowmem == var low := BuiltLowTop(file, haveMmconfig, last); if low.Some? then low.value else lowmem0
  {
    hide AllEntryBytes, Patch, ToLE, FromLE, EntryOf, EntriesOf, AllFit, SplitLow, LowTop, LastBefore;
    ghost var m0, file := mem[..], EntriesOf(data);
    var nr := |data| / ENTRY_SIZE + 5;
    ghost var last := LastBefore(m0, p, nr);
    var base := p + MAP_OFFSET;
    Store(mem, p, ToLE(nr, MAP_OFFSET));
    ghost var m := mem[..];
    CountStored(m0, p, nr);
    ghost var es0 := EntriesInMemory(m, base, nr);
    var i, nrMap, es := FillFront(mem, m, base, es0, haveMmconfig, nr);
    EntriesBytes(data);
    WholeStream(data);
    es := StoreEntries(mem, m, base, es, i, Stream(data, 0, |data|), file);
    ghost var rest := if haveMmconfig then file else file + [last];
    assert es == Front(haveMmconfig) + rest;
    FrontFits(haveMmconfig);
    LastFits(es0);
    StillFit(Front(haveMmconfig), file, if haveMmconfig then [] else [last]);
    assert es == Front(haveMmconfig) + file + if haveMmconfig then [] else [last];
    CountKept(m0, p, nr, es);
    assert mem[p..base] == mem[..][p..base];
    var count := FromLE(mem[p..base]);
    lowmem, es := SplitInPlace(mem, m, base, es, i, count, lowmem0);
    assert (Front(haveMmconfig) + rest)[i..] == rest && (Front(haveMmconfig) + rest)[..i] == Front(haveMmconfig);
    BuiltIs(file, haveMmconfig, last);
    PatchAdjacent(m0, p, ToLE(nr, MAP_OFFSET), AllEntryBytes(es));
  }

  lemma LastFits(es: seq<Entry>)
    requires es != [] && AllFit(es)
    ensures AllFit([es[|es| - 1]]) && AllFit([])
  {
    hide Fits;
  }

  lemma BuiltIs(file: seq<Entry>, haveMmconfig: bool, last: Entry)
    ensures Built(file, haveMmconfig, last) ==
            Front(haveMmconfig) + SplitLow(if haveMmconfig then file else file + [last])
  {
    hide SplitLow;
  }

  /** Writing the count leaves the entries as they were. */
  lemma CountStored(m0: seq<byte>, p: nat, nr: nat)
    requires nr > 0 && p + MAP_OFFSET + ENTRY_SIZE * nr <= |m0|
    ensures LastBefore(Patch(m0, p, ToLE(nr, MAP_OFFSET)), p, nr) == LastBefore(m0, p, nr)
  {
    hide EntryOf, Patch;
    PatchElsewhere(m0, p + MAP_OFFSET + ENTRY_SIZE * nr - ENTRY_SIZE, ENTRY_SIZE, p, ToLE(nr, MAP_OFFSET));
  }

  /** And writing entries leaves the count. */
  lemma CountKept(m0: seq<byte>, p: nat, nr: nat, es: seq<Entry>)
    requires nr < WORD && |es| == nr && p + MAP_OFFSET + ENTRY_SIZE * nr <= |m0|
    ensures var m := Patch(Patch(m0, p, ToLE(nr, MAP_OFFSET)), p + MAP_OFFSET, AllEntryBytes(es));
            FromLE(m[p..p + MAP_OFFSET]) == nr
  {
    hide AllEntryBytes, ToLE, FromLE, Patch;
    var c := ToLE(nr, MAP_OFFSET);
    var m := Patch(m0, p, c);
    PatchOver(m0, p, c, c);
    PatchElsewhere(m, p, MAP_OFFSET, p + MAP_OFFSET, AllEntryBytes(es));
    FromToLE(nr, MAP_OFFSET);
    FourBytes();
    SmallMod(nr, WORD);
  }

  /** extract_e820: nr_map counts five entries beside those of the file, whether or not the MMCONFIG
      window needs one of them. False stands for the panic without a file. */
  method ExtractE820(dir: Directory, heap: Heap, mem: array<byte>, haveMmconfig: bool, lowmem0: nat)
    returns (ok: bool, segment: nat, lowmem: nat)
    requires heap.Valid() && heap.top0 <= mem.Length && FileOk(dir, heap.mallocTop)
    modifies heap, mem
    ensures heap.Valid()
    ensures ok <==> FileId(dir, E820_NAME) >= 0
    ensures !ok ==> mem[..] == old(mem[..]) && heap.high == old(heap.high)
    ensures ok ==>
              var file, p := EntriesOf(dir[FileId(dir, E820_NAME)].data), heap.mallocTop;
              var last := LastBefore(old(mem[..]), p, |file| + 5);
              && heap.high == old(heap.high) + [Block(p, MAP_OFFSET + ENTRY_SIZE * (|file| + 5), 16)]
              && segment == SegmentOf(p)
              && p + |MapBytes(Built(file, haveMmconfig, last))| <= mem.Length
              && mem[..] == Patch(old(mem[..]), p, MapBytes(Built(file, haveMmconfig, last)))
              && lowmem == var low := BuiltLowTop(file, haveMmconfig, last); if low.Some? then low.value else lowmem0
  {
    hide FileId, Built, BuiltLowTop, Patch, MapBytes, EntriesOf, LastBefore, RoundDown;
    var id := FwCfgFileId(dir, E820_NAME);
    if id == -1 {
      return false, 0, lowmem0;
    }
    var size := FileSize(dir, id);
    SixteenIsPowerOfTwo();
    var n := MAP_OFFSET + ENTRY_SIZE * (size / ENTRY_SIZE + 5);
    MultipleAbove(heap.mallocTop - n, 16);
    var p := heap.MallocAlign(n, 16);
    lowmem := BuildMap(mem, p, dir[id].data, haveMmconfig, lowmem0);
    return true, SegmentOf(p), lowmem;
  }
}
