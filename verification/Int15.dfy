/** The INT 15h, AX=E820h service of code16.c: one call copies one entry of the memory map out of
    the segment that main.c saved, and tells the caller where to go on (section 15.1 of the
    ACPI specification, "INT 15H, E820H"). */
module Int15 {
  import opened Bytes
  import opened Malloc
  import opened MapExtraction
  import opened MapLayout
  import FwCfg
  import MemoryMap

  const SMAP: nat := 0x534d4150

  /** The map lies at the start of a segment, and is counted in 32 bits. */
  ghost predicate MapAt(mem: seq<byte>, segment: nat, es: seq<MemoryMap.Entry>) {
    var p := segment * SEGMENT_UNIT;
    |es| < WORD && p + |MapBytes(es)| <= |mem| && mem[p..p + |MapBytes(es)|] == MapBytes(es)
  }

  /** Where the count of the map lies in memory. */
  lemma CountInMemory(mem: seq<byte>, segment: nat, es: seq<MemoryMap.Entry>)
    requires MapAt(mem, segment, es)
    ensures var p := segment * SEGMENT_UNIT;
            p + MAP_OFFSET <= |mem| && FromLE(mem[p..p + MAP_OFFSET]) == |es|
  {
    hide EntryBytes, AllEntryBytes, ToLE, FromLE;
    var p, b := segment * SEGMENT_UNIT, MapBytes(es);
    SliceOfSlice(mem, p, |b|, 0, MAP_OFFSET);
    assert b[0..MAP_OFFSET] == ToLE(|es|, MAP_OFFSET);
    FromToLE(|es|, MAP_OFFSET);
    FourBytes();
    SmallMod(|es|, WORD);
  }

  /** And where its k-th entry lies. */
  lemma EntryInMemory(mem: seq<byte>, segment: nat, es: seq<MemoryMap.Entry>, k: nat)
    requires MapAt(mem, segment, es) && k < |es|
    ensures var at := segment * SEGMENT_UNIT + MAP_OFFSET + ENTRY_SIZE * k;
            && at + ENTRY_SIZE <= segment * SEGMENT_UNIT + |MapBytes(es)| <= |mem|
            && mem[at..at + ENTRY_SIZE] == EntryBytes(es[k])
  {
    hide EntryBytes, AllEntryBytes, ToLE;
    var p, b, n := segment * SEGMENT_UNIT, MapBytes(es), |MapBytes(es)|;
    EntryInBytes(es, k);
    SliceOfSlice(mem, p, n, MAP_OFFSET + ENTRY_SIZE * k, ENTRY_SIZE);
    SliceOfSlice(b, MAP_OFFSET, n - MAP_OFFSET, ENTRY_SIZE * k, ENTRY_SIZE);
    assert b[MAP_OFFSET..n] == AllEntryBytes(es);
  }

  /** The registers that the service reads or writes. */
  class Registers {
    var eax: nat
    var ebx: nat
    var ecx: nat
    var edi: nat

    constructor (edi: nat)
      ensures ebx == 0 && this.edi == edi
    {
      eax, ebx, ecx, this.edi := 0, 0, 0, edi;
    }
  }

  /** What a call leaves in ebx: the next index, or 0 at the end of the map. */
  function NextIndex(ndx: nat, count: nat): nat {
    var next := (ndx + 1) % WORD;
    if next >= count then 0 else next
  }

  /** A caller's buffer in memory, below the map or above it. */
  predicate BesideMap(segment: nat, es: seq<MemoryMap.Entry>, edi: nat, size: nat) {
    && (edi + ENTRY_SIZE <= segment * SEGMENT_UNIT || segment * SEGMENT_UNIT + |MapBytes(es)| <= edi)
    && edi + ENTRY_SIZE <= size
  }

  /** e820_query_map: an index inside the map has its entry copied to the caller's buffer. */
  method E820QueryMap(mem: array<byte>, segment: nat, regs: Registers, ghost es: seq<MemoryMap.Entry>)
    requires MapAt(mem[..], segment, es)
    requires BesideMap(segment, es, regs.edi, mem.Length)
    modifies mem, regs`eax, regs`ebx, regs`ecx
    ensures mem[..] == if old(regs.ebx) < |es| then Patch(old(mem[..]), regs.edi, EntryBytes(es[old(regs.ebx)]))
                       else old(mem[..])
    ensures regs.eax == 0x534d4150 && regs.ecx == 20
    ensures regs.ebx == NextIndex(old(regs.ebx), |es|)
  {
    hide EntryBytes, MapBytes, FromLE, MapAt, Patch;
    CountInMemory(mem[..], segment, es);
    var fs := segment * SEGMENT_UNIT;
    var ndx := regs.ebx;
    assert mem[..][fs..fs + MAP_OFFSET] == mem[fs..fs + MAP_OFFSET];
    var mapSize := FromLE(mem[fs..fs + MAP_OFFSET]);
    if ndx < mapSize {
      var start := MAP_OFFSET + ENTRY_SIZE * ndx;
      EntryInMemory(mem[..], segment, es, ndx);
      CopyEntry(mem, fs + start, regs.edi, EntryBytes(es[ndx]));
    }
    regs.eax := SMAP;
    regs.ecx := ENTRY_SIZE;
    ndx := (ndx + 1) % WORD;
    regs.ebx := ndx;
    if ndx >= mapSize {
      regs.ebx := 0;
    }
  }

  lemma MapSize(es: seq<MemoryMap.Entry>)
    ensures |MapBytes(es)| == MAP_OFFSET + ENTRY_SIZE * |es|
  {
  }

  lemma OneMoreByte(m: seq<byte>, to: nat, b: seq<byte>, i: nat)
    requires i < |b| && to + |b| <= |m|
    ensures Patch(m, to, b[..i])[to + i := b[i]] == Patch(m, to, b[..i + 1])
  {
  }

  /** The byte-wise copy loop. */
  method CopyEntry(mem: array<byte>, from: nat, to: nat, ghost b: seq<byte>)
    requires (from + ENTRY_SIZE <= to || to + ENTRY_SIZE <= from) && |b| == ENTRY_SIZE
    requires from + ENTRY_SIZE <= mem.Length && to + ENTRY_SIZE <= mem.Length
    requires mem[..][from..from + ENTRY_SIZE] == b
    modifies mem
    ensures mem[..] == Patch(old(mem[..]), to, b)
  {
    ghost var m := mem[..];
    for i := 0 to ENTRY_SIZE
      invariant mem[..] == Patch(m, to, b[..i])
    {
      assert mem[from + i] == m[from..from + ENTRY_SIZE][i] == b[i];
      OneMoreByte(m, to, b, i);
      mem[to + i] := mem[from + i];
    }
    assert b[..ENTRY_SIZE] == b;
  }

  /** The first entries of the map, in order. */
  predicate AreEntries(got: seq<seq<byte>>, es: seq<MemoryMap.Entry>) {
    |got| <= |es| && forall k | 0 <= k < |got| :: got[k] == EntryBytes(es[k])
  }

  lemma NoneYet(es: seq<MemoryMap.Entry>)
    ensures AreEntries([], es)
  {
  }

  lemma NextGot(got: seq<seq<byte>>, es: seq<MemoryMap.Entry>, b: seq<byte>)
    requires AreEntries(got, es) && |got| < |es| && b == EntryBytes(es[|got|])
    ensures AreEntries(got + [b], es)
  {
    hide EntryBytes;
  }

  /** The caller's side of the protocol: start with 0 and go on until 0 comes back. It gets every
      entry of a map that is not empty exactly once, in order, in as many calls as entries, and nothing
      but its buffer changes. */
  method QueryAll(mem: array<byte>, segment: nat, regs: Registers, ghost es: seq<MemoryMap.Entry>)
    returns (got: seq<seq<byte>>)
    requires es != [] && MapAt(mem[..], segment, es)
    requires BesideMap(segment, es, regs.edi, mem.Length)
    requires regs.ebx == 0
    modifies mem, regs
    ensures |got| == |es| && AreEntries(got, es)
    ensures regs.ebx == 0 && regs.edi == old(regs.edi) && MapAt(mem[..], segment, es)
    ensures OnlyBuffer(old(mem[..]), mem[..], regs.edi)
  {
    hide EntryBytes, MapBytes, AreEntries, Patch, OnlyBuffer;
    got := [];
    NoneYet(es);
    ghost var m0, edi := mem[..], regs.edi;
    NothingChanged(m0, edi);
    while true
      invariant MapAt(mem[..], segment, es) && regs.edi == edi && OnlyBuffer(m0, mem[..], edi)
      invariant |got| < |es| && regs.ebx == |got| && AreEntries(got, es)
      decreases |es| - |got|
    {
      ghost var m := mem[..];
      E820QueryMap(mem, segment, regs, es);
      MapKept(m, segment, es, regs.edi, EntryBytes(es[|got|]));
      BufferChanged(m0, m, edi, EntryBytes(es[|got|]));
      assert mem[..][regs.edi..regs.edi + ENTRY_SIZE] == mem[regs.edi..regs.edi + ENTRY_SIZE];
      NextGot(got, es, mem[regs.edi..regs.edi + ENTRY_SIZE]);
      got := got + [mem[regs.edi..regs.edi + ENTRY_SIZE]];
      if regs.ebx == 0 {
        return;
      }
    }
  }

  /** The caller's buffer is all that may differ. */
  predicate OnlyBuffer(m0: seq<byte>, m: seq<byte>, edi: nat) {
    |m| == |m0| && forall k | 0 <= k < |m| && !(edi <= k < edi + ENTRY_SIZE) :: m[k] == m0[k]
  }

  lemma NothingChanged(m: seq<byte>, edi: nat)
    ensures OnlyBuffer(m, m, edi)
  {
  }

  lemma BufferChanged(m0: seq<byte>, m: seq<byte>, edi: nat, b: seq<byte>)
    requires OnlyBuffer(m0, m, edi) && |b| == ENTRY_SIZE && edi + |b| <= |m|
    ensures OnlyBuffer(m0, Patch(m, edi, b), edi)
  {
    PatchAt(m, edi, b);
  }

  lemma MapKept(m: seq<byte>, segment: nat, es: seq<MemoryMap.Entry>, edi: nat, b: seq<byte>)
    requires MapAt(m, segment, es) && |b| == ENTRY_SIZE && BesideMap(segment, es, edi, |m|)
    ensures MapAt(Patch(m, edi, b), segment, es) && Patch(m, edi, b)[edi..edi + |b|] == b
  {
    hide MapBytes;
    PatchElsewhere(m, segment * SEGMENT_UNIT, |MapBytes(es)|, edi, b);
  }

  /** The map that malloc places below the firmware is addressed by its segment. */
  lemma AllocatedMapIsAddressed(heap: Heap, b: Block)
    requires heap.Valid() && heap.top0 <= 0xf0000 && b in heap.high && b.align == 16
    ensures SegmentOf(b.start) * SEGMENT_UNIT == b.start
  {
    SegmentLeadsBack(b.start);
  }

  /** Conventional memory ends where that of devices begins. */
  const ISA_START: nat := 0xa0000

  /** The boot and a caller: extract_e820 builds the map and saves its segment, and software with a
      buffer in conventional memory then reads from the service exactly the entries that were built. */
  method ExtractAndQuery(dir: FwCfg.Directory, heap: Heap, mem: array<byte>, haveMmconfig: bool, regs: Registers)
    returns (ok: bool, got: seq<seq<byte>>)
    requires heap.Valid() && heap.top0 == 0xf0000 <= mem.Length && FileOk(dir, heap.mallocTop)
    requires var id := FwCfg.FileId(dir, E820_NAME);
             id >= 0 ==> Need(heap.high) + MAP_OFFSET + |dir[id].data| + 5 * ENTRY_SIZE + 15 <= 128 * 1024
    requires regs.edi + ENTRY_SIZE <= ISA_START && regs.ebx == 0
    modifies heap, mem, regs
    ensures ok <==> FwCfg.FileId(dir, E820_NAME) >= 0
    ensures ok ==>
              var file := EntriesOf(dir[FwCfg.FileId(dir, E820_NAME)].data);
              var es := MemoryMap.Built(file, haveMmconfig, LastBefore(old(mem[..]), heap.mallocTop, |file| + 5));
              |got| == |es| == |file| + 5 && AreEntries(got, es)
  {
    hide FwCfg.FileId, MemoryMap.Built, Patch, MapBytes, EntriesOf, LastBefore;
    hide AreEntries, OnlyBuffer, Need, Apart, Aligned;
    got := [];
    ghost var m, high := mem[..], heap.high;
    var segment, lowmem;
    ok, segment, lowmem := ExtractE820(dir, heap, mem, haveMmconfig, 0);
    if ok {
      ghost var file := EntriesOf(dir[FwCfg.FileId(dir, E820_NAME)].data);
      ghost var es := MemoryMap.Built(file, haveMmconfig, LastBefore(m, heap.mallocTop, |file| + 5));
      MemoryMap.BuiltLength(file, haveMmconfig, LastBefore(m, heap.mallocTop, |file| + 5));
      MapSize(es);
      ghost var b := Block(heap.mallocTop, MAP_OFFSET + ENTRY_SIZE * (|file| + 5), 16);
      OneMoreNeeded(high, b);
      assert b in heap.high;
      BlocksInNvsWindow(heap, b);
      AllocatedMapIsAddressed(heap, b);
      PatchOver(m, b.start, MapBytes(es), MapBytes(es));
      got := QueryAll(mem, segment, regs, es);
    }
  }

  lemma OneMoreNeeded(high: seq<Block>, b: Block)
    ensures Need(high + [b]) == Need(high) + b.size + b.align - 1
  {
    assert (high + [b])[..|high|] == high;
  }
}
