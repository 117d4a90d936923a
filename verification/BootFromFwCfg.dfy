/** boot_from_fwcfg of fw_cfg.c: loads setup, kernel, command line and initrd from the device. The
    setup is read in two parts, around the patching of its header. */
module BootFromFwCfg {
  import opened Bytes
  import opened FwCfg
  import opened LinuxBoot
  import opened Malloc

  const KERNEL_SIZE: nat := 0x08
  const INITRD_SIZE: nat := 0x0b
  const KERNEL_DATA: nat := 0x11
  const INITRD_DATA: nat := 0x12
  const CMDLINE_SIZE: nat := 0x14
  const CMDLINE_DATA: nat := 0x15
  const SETUP_ADDR: nat := 0x16
  const SETUP_SIZE: nat := 0x17
  const SETUP_DATA: nat := 0x18

  const PEEK: nat := 8192
  const ELF: nat := 0x464c457f

  type Entries = map<nat, seq<byte>>

  /** Returning without a kernel, going on to the multiboot or PVH loader, or a loaded bzImage. */
  datatype Outcome = NoKernel | NotBzImage(elf: bool) | Loaded

  function Given(e: Entries, lowmem: nat): Inputs {
    Inputs(Long(e, CMDLINE_SIZE), Long(e, INITRD_SIZE), lowmem)
  }

  /** The first n bytes of the setup. */
  function SetupData(e: Entries, n: nat): (s: seq<byte>)
    ensures |s| == n
  {
    Stream(Entry(e, SETUP_DATA), 0, n)
  }

  function Header(e: Entries): Setup {
    SetupOf(SetupData(e, PEEK))
  }

  function Outcomes(e: Entries): Outcome {
    if (Long(e, KERNEL_SIZE) + Long(e, SETUP_SIZE)) % WORD == 0 then NoKernel
    else if Header(e).magic != MAGIC then NotBzImage(Field(SetupData(e, PEEK), 0, 4) == ELF)
    else Loaded
  }

  /** How much of the setup is loaded. */
  function SetupLength(e: Entries): nat {
    if SetupSize(Header(e)) > PEEK then SetupSize(Header(e)) else PEEK
  }

  /** What a Linux boot puts into memory: the whole setup with a patched header, then the other parts
      where the header says. */
  function Parts(e: Entries, lowmem: nat): seq<Write>
    requires 0 < lowmem < WORD
  {
    var i, s := Given(e, lowmem), Header(e);
    var p := Place(s, i.cmdlineSize);
    [Write(Long(e, SETUP_ADDR), Patched(SetupData(e, SetupLength(e)), i)),
     Write(p.prot, Stream(Entry(e, KERNEL_DATA), 0, Long(e, KERNEL_SIZE))),
     Write(p.cmdline, Stream(Entry(e, CMDLINE_DATA), 0, i.cmdlineSize))]
    + if i.initrdSize == 0 then []
      else [Write(InitrdAddr(InitrdMax(s, lowmem), i.initrdSize), Stream(Entry(e, INITRD_DATA), 0, i.initrdSize))]
  }

  /** Everything that is loaded lies in memory. */
  ghost predicate InMemory(e: Entries, lowmem: nat, size: nat)
    requires 0 < lowmem < WORD
  {
    Long(e, SETUP_ADDR) + PEEK <= size && (Outcomes(e) == Loaded ==> forall w | w in Parts(e, lowmem) :: w.Fits(size))
  }

  /** The setup in two parts, with the header patched in between, is the whole setup patched. */
  lemma SetupInTwoParts(m: seq<byte>, e: Entries, i: Inputs)
    requires i.Valid() && Long(e, SETUP_ADDR) + SetupLength(e) <= |m|
    ensures var p, n := Long(e, SETUP_ADDR), SetupLength(e);
            Patch(Patch(m, p, Patched(SetupData(e, PEEK), i)), p + PEEK,
                  Stream(Entry(e, SETUP_DATA), PEEK, n - PEEK)) ==
            Patch(m, p, Patched(SetupData(e, n), i))
  {
    hide Patch, Patched, Long, SetupOf, Stream;
    var p, n := Long(e, SETUP_ADDR), SetupLength(e);
    var a, b := SetupData(e, PEEK), Stream(Entry(e, SETUP_DATA), PEEK, n - PEEK);
    StreamSplit(Entry(e, SETUP_DATA), PEEK, n - PEEK);
    PatchedPrefix(a, b, i);
    PatchAdjacent(m, p, Patched(a, i), b);
  }

  /** The header decides the same however much of the setup is read. */
  lemma HeaderOfWhole(e: Entries)
    ensures SetupOf(SetupData(e, SetupLength(e))) == Header(e)
  {
    hide SetupOf, Stream;
    var n := SetupLength(e);
    StreamSplit(Entry(e, SETUP_DATA), PEEK, n - PEEK);
    PatchedPrefix(SetupData(e, PEEK), Stream(Entry(e, SETUP_DATA), PEEK, n - PEEK), Inputs(0, 0, 1));
  }

  lemma PutOne(m: seq<byte>, ws: seq<Write>, k: nat)
    requires k < |ws| && ws[k].Fits(|m|)
    ensures PutAll(m, ws[..k + 1]) == Patch(PutAll(m, ws[..k]), ws[k].at, ws[k].bytes)
  {
    assert ws[..k + 1][..k] == ws[..k];
  }

  method BootFromFwcfg(mem: array<byte>, dev: Device, lowmem: nat) returns (outcome: Outcome)
    requires 0 < lowmem < WORD && InMemory(dev.entries, lowmem, mem.Length)
    modifies mem, dev
    ensures outcome == Outcomes(dev.entries)
    ensures mem[..] == match outcome
                       case NoKernel => old(mem[..])
                       case NotBzImage(_) =>
                         Patch(old(mem[..]), Long(dev.entries, SETUP_ADDR), SetupData(dev.entries, PEEK))
                       case Loaded => PutAll(old(mem[..]), Parts(dev.entries, lowmem))
    ensures outcome == OutcomeByBytes(dev.entries)
    ensures var blob := Entry(dev.entries, 0x18);
            outcome.Loaded? && WholeSetup(blob) && Apart(Parts(dev.entries, lowmem)) ==>
              SetupInPlace(mem[..], Long(dev.entries, 0x16), blob)
  {
    hide OutcomeByBytes, WholeSetup, SetupInPlace, Apart, LaidOut, Stretch;
    OutcomesByBytes(dev.entries);
    hide Patch, Patched, Stream, Long, SetupOf, FromLE, Place, InitrdAddr, InitrdMax, PutAll, Parts;
    ghost var m, e := mem[..], dev.entries;
    var args := new LinuxbootArgs();
    args.cmdlineSize := dev.ReadLong(CMDLINE_SIZE);
    args.initrdSize := dev.ReadLong(INITRD_SIZE);
    var kernelSize := dev.ReadLong(KERNEL_SIZE);
    var setupSize := dev.ReadLong(SETUP_SIZE);
    args.vmlinuzSize := (kernelSize + setupSize) % WORD;
    args.setupAddr := dev.ReadLong(SETUP_ADDR);
    if args.vmlinuzSize == 0 {
      return NoKernel;
    }
    var ok := PeekAndParse(mem, dev, args, lowmem);
    if !ok {
      var first := FirstWord(mem, args.setupAddr, SetupData(e, PEEK));
      return NotBzImage(first == ELF);
    }
    LoadRest(mem, dev, args, kernelSize, lowmem, m);
    BlobLoaded(m, e, lowmem);
    return Loaded;
  }

  /** A setup blob as a bzImage has it: a boot sector, and as many sectors more as byte 0x1f1 announces;
      0 stands for 4. */
  predicate WholeSetup(blob: seq<byte>) {
    |blob| > 0x1f1 && |blob| == 512 + 512 * if blob[0x1f1] == 0 then 4 else blob[0x1f1] as nat
  }

  /** All of a setup blob is in memory, but for the fields of its protocol version. */
  ghost predicate SetupInPlace(m: seq<byte>, at: nat, blob: seq<byte>) {
    && at + |blob| <= |m|
    && forall k | 0 <= k < |blob| && !MayChange(NumberAt(blob, 0x206, 2), k) :: m[at + k] == blob[k]
  }

  lemma BlobHeader(blob: seq<byte>)
    requires WholeSetup(blob)
    ensures HEADER_END <= |blob|
    ensures var h := Stream(blob, 0, PEEK);
            && h[0x1f1] == blob[0x1f1] && SetupOf(h).sectors == blob[0x1f1]
            && SetupOf(h).protocol == NumberAt(blob, 0x206, 2)
  {
    hide FromLE;
    assert Stream(blob, 0, PEEK)[0x206..0x208] == blob[0x206..0x208];
  }

  /** However long the setup is, a boot loads all of it. */
  lemma BlobLoaded(m: seq<byte>, e: Entries, lowmem: nat)
    requires 0 < lowmem < WORD && InMemory(e, lowmem, |m|) && Outcomes(e) == Loaded
    ensures Apart(Parts(e, lowmem)) && WholeSetup(Entry(e, 0x18)) ==>
              SetupInPlace(PutAll(m, Parts(e, lowmem)), Long(e, 0x16), Entry(e, 0x18))
  {
    hide PutAll, Patched, Place, InitrdAddr, InitrdMax, SetupOf, Long, MayChange, Apart, Parts, InMemory, Outcomes;
    hide FindsCmdline, FindsInitrd, NumberAt;
    var blob, r, p, n := Entry(e, 0x18), PutAll(m, Parts(e, lowmem)), Long(e, 0x16), SetupLength(e);
    if Apart(Parts(e, lowmem)) && WholeSetup(blob) {
      KernelFindsParts(m, e, lowmem);
      BlobHeader(blob);
      forall k | 0 <= k < |blob| && !MayChange(NumberAt(blob, 0x206, 2), k) ensures r[p + k] == blob[k] {
        assert r[p..p + n][k] == SetupData(e, n)[k] == blob[k];
      }
    }
  }

  /** The outcome of a boot, told from the bytes of the entries: nothing without a kernel size, a bzImage
      if the setup has "HdrS" at 0x202, and an ELF file if it begins with that magic number. */
  function OutcomeByBytes(e: Entries): Outcome {
    var h := Stream(Entry(e, 0x18), 0, 8192);
    if (Long(e, 0x08) + Long(e, 0x17)) % WORD == 0 then NoKernel
    else if Stretch(h, 0x202, 4) != [0x48, 0x64, 0x72, 0x53] then
      NotBzImage(Stretch(h, 0, 4) == [0x7f, 0x45, 0x4c, 0x46])
    else Loaded
  }

  lemma OutcomesByBytes(e: Entries)
    ensures Outcomes(e) == OutcomeByBytes(e)
  {
    hide SetupOf, Stream, FromLE, Long;
    var h := SetupData(e, PEEK);
    MagicBytes(h);
    FourIs(h[0..4], [0x7f, 0x45, 0x4c, 0x46]);
    FourFrom([0x7f, 0x45, 0x4c, 0x46]);
  }

  /** The number at the beginning of a setup in memory. */
  method FirstWord(mem: array<byte>, p: nat, ghost h: seq<byte>) returns (v: nat)
    requires |h| >= 4 && p + |h| <= mem.Length && mem[..][p..p + |h|] == h
    ensures v == Field(h, 0, 4)
  {
    hide FromLE;
    SliceOfSlice(mem[..], p, |h|, 0, 4);
    assert mem[..][p..p + 4] == mem[p..p + 4];
    v := FromLE(mem[p..p + 4]);
  }

  /** The beginning of the setup is read, and its header parsed and patched in place. */
  method PeekAndParse(mem: array<byte>, dev: Device, args: LinuxbootArgs, lowmem: nat) returns (ok: bool)
    requires 0 < lowmem < WORD && args.setupAddr == Long(dev.entries, SETUP_ADDR)
    requires args.setupAddr + PEEK <= mem.Length
    requires Inputs(args.cmdlineSize, args.initrdSize, lowmem) == Given(dev.entries, lowmem)
    modifies mem, dev, args
    ensures args.setupAddr == old(args.setupAddr) && args.cmdlineSize == old(args.cmdlineSize)
            && args.initrdSize == old(args.initrdSize) && dev.selected == SETUP_DATA && dev.offset == PEEK
    ensures var e, i := dev.entries, Given(dev.entries, lowmem);
            && ok == (Header(e).magic == MAGIC)
            && mem[..] == Patch(old(mem[..]), args.setupAddr,
                                if ok then Patched(SetupData(e, PEEK), i) else SetupData(e, PEEK))
            && (!ok ==> mem[..][args.setupAddr..args.setupAddr + PEEK] == SetupData(e, PEEK))
            && (ok ==> args.PlacedFor(Header(e), i))
  {
    hide LaidOut, Stretch, Patch, Patched, Stream, Long, SetupOf, Place, InitrdAddr, InitrdMax;
    ghost var m, e := mem[..], dev.entries;
    dev.Select(SETUP_DATA);
    dev.Read(mem, args.setupAddr, PEEK);
    PatchOver(m, args.setupAddr, SetupData(e, PEEK), Patched(SetupData(e, PEEK), Given(e, lowmem)));
    assert mem[..][args.setupAddr..args.setupAddr + PEEK] == mem[args.setupAddr..args.setupAddr + PEEK];
    ok := ParseBzimage(mem, args, lowmem, PEEK);
  }

  /** The rest of the setup, which is still selected, and the other parts. */
  method LoadRest(mem: array<byte>, dev: Device, args: LinuxbootArgs, kernelSize: nat, lowmem: nat, ghost m: seq<byte>)
    requires 0 < lowmem < WORD && Outcomes(dev.entries) == Loaded && InMemory(dev.entries, lowmem, mem.Length)
    requires var e := dev.entries; var i := Given(e, lowmem);
             && |m| == mem.Length && args.setupAddr == Long(e, SETUP_ADDR) && kernelSize == Long(e, KERNEL_SIZE)
             && args.cmdlineSize == i.cmdlineSize && args.initrdSize == i.initrdSize && args.PlacedFor(Header(e), i)
             && dev.selected == SETUP_DATA && dev.offset == PEEK
             && mem[..] == Patch(m, args.setupAddr, Patched(SetupData(e, PEEK), i))
    modifies mem, dev
    ensures mem[..] == PutAll(m, Parts(dev.entries, lowmem))
  {
    hide Patch, Patched, Stream, Long, SetupOf, FromLE, Place, InitrdAddr, InitrdMax, PutAll;
    ghost var e, i, ws := dev.entries, Given(dev.entries, lowmem), Parts(dev.entries, lowmem);
    assert ws[0] in ws && ws[1] in ws && ws[2] in ws;
    SetupInTwoParts(m, e, i);
    if args.setupSize > PEEK {
      dev.Read(mem, args.setupAddr + PEEK, args.setupSize - PEEK);
    }
    FirstPart(m, ws);
    assert mem[..] == PutAll(m, ws[..1]);
    PutOne(m, ws, 1);
    dev.ReadEntry(KERNEL_DATA, mem, args.kernelAddr, kernelSize);
    PutOne(m, ws, 2);
    dev.ReadEntry(CMDLINE_DATA, mem, args.cmdlineAddr, args.cmdlineSize);
    if args.initrdSize > 0 {
      assert ws[3] in ws;
      PutOne(m, ws, 3);
      dev.ReadEntry(INITRD_DATA, mem, args.initrdAddr, args.initrdSize);
    }
    assert ws[..|ws|] == ws;
  }

  lemma FirstPart(m: seq<byte>, ws: seq<Write>)
    requires ws != [] && ws[0].Fits(|m|)
    ensures PutAll(m, ws[..1]) == Patch(m, ws[0].at, ws[0].bytes)
  {
    assert ws[..1][..0] == [];
  }

  ghost predicate Apart(ws: seq<Write>) {
    forall j, k | 0 <= j < k < |ws| :: !ws[k].Meets(ws[j])
  }

  /** When the parts lie apart, each of them is in memory at the end, and nothing else has changed. */
  lemma {:induction false} LoadedParts(m: seq<byte>, e: Entries, lowmem: nat)
    requires 0 < lowmem < WORD && InMemory(e, lowmem, |m|) && Outcomes(e) == Loaded
    requires Apart(Parts(e, lowmem))
    ensures var r := PutAll(m, Parts(e, lowmem));
            && (forall w | w in Parts(e, lowmem) :: r[w.at..w.at + |w.bytes|] == w.bytes)
            && (forall k | 0 <= k < |m| && (forall w | w in Parts(e, lowmem) :: !w.Contains(k)) :: r[k] == m[k])
  {
    hide PutAll, Parts;
    var ws := Parts(e, lowmem);
    forall w | w in ws ensures PutAll(m, ws)[w.at..w.at + |w.bytes|] == w.bytes {
      var k :| 0 <= k < |ws| && ws[k] == w;
      PutAllHolds(m, ws, k);
    }
    forall k | 0 <= k < |m| && (forall w | w in ws :: !w.Contains(k)) ensures PutAll(m, ws)[k] == m[k] {
      PutAllKeeps(m, ws, k);
    }
  }

  /** What a kernel with setup at p reads in memory r through its header. */
  ghost predicate FindsCmdline(r: seq<byte>, setup: seq<byte>, cmdline: seq<byte>)
    requires |setup| >= HEADER_END
  {
    var at := Field(setup, 0x228, 4);
    at + |cmdline| <= |r| && r[at..at + |cmdline|] == cmdline
  }

  ghost predicate FindsInitrd(r: seq<byte>, setup: seq<byte>, initrd: seq<byte>)
    requires |setup| >= HEADER_END
  {
    var at, n := Field(setup, 0x218, 4), Field(setup, 0x21c, 4);
    n == |initrd| && (n > 0 ==> at + n <= |r| && r[at..at + n] == initrd)
  }

  /** A booted kernel finds its setup as it was given, but for the fields of its protocol version, and
      through the header the command line and the initrd. */
  lemma KernelFindsParts(m: seq<byte>, e: Entries, lowmem: nat)
    requires 0 < lowmem < WORD && InMemory(e, lowmem, |m|) && Outcomes(e) == Loaded
    requires Apart(Parts(e, lowmem))
    ensures var r, p, n, i := PutAll(m, Parts(e, lowmem)), Long(e, SETUP_ADDR), SetupLength(e), Given(e, lowmem);
            && p + n <= |r|
            && var setup := r[p..p + n];
            && (forall k | 0 <= k < n && !MayChange(Header(e).protocol, k) :: setup[k] == SetupData(e, n)[k])
            && (Header(e).protocol >= 0x202 ==>
                  FindsCmdline(r, setup, Stream(Entry(e, CMDLINE_DATA), 0, i.cmdlineSize)))
            && FindsInitrd(r, setup, Stream(Entry(e, INITRD_DATA), 0, i.initrdSize))
  {
    hide PutAll, Patched, Stream, Place, InitrdAddr, InitrdMax, SetupOf, Long, Field, MayChange, Apart, Outcomes;
    hide SetupLength, InMemory;
    var n, i, ws := SetupLength(e), Given(e, lowmem), Parts(e, lowmem);
    PartsInMemory(m, e, lowmem);
    LoadedParts(m, e, lowmem);
    HeaderOfWhole(e);
    PatchedFields(SetupData(e, n), i);
    SetupKept(e, i);
    assert ws[0] in ws && ws[2] in ws && (i.initrdSize > 0 ==> ws[3] in ws);
  }

  lemma PartsInMemory(m: seq<byte>, e: Entries, lowmem: nat)
    requires 0 < lowmem < WORD && InMemory(e, lowmem, |m|) && Outcomes(e) == Loaded
    ensures SetupLength(e) >= HEADER_END && forall w | w in Parts(e, lowmem) :: w.Fits(|m|)
  {
    hide Parts;
  }

  lemma SetupKept(e: Entries, i: Inputs)
    requires i.Valid()
    ensures var n := SetupLength(e);
            n >= HEADER_END
            && forall k | 0 <= k < n && !MayChange(Header(e).protocol, k) ::
                 Patched(SetupData(e, n), i)[k] == SetupData(e, n)[k]
  {
    hide Patched, Stream, SetupOf, MayChange;
    var n := SetupLength(e);
    HeaderOfWhole(e);
    forall k | 0 <= k < n && !MayChange(Header(e).protocol, k)
      ensures Patched(SetupData(e, n), i)[k] == SetupData(e, n)[k]
    {
      PatchedKeeps(SetupData(e, n), i, k);
    }
  }

  /** Sizes for which the parts of a recent kernel that loads high lie apart, below the top of low
      memory: the setup ends below the command line, that below the kernel, and that below the page
      where the initrd goes. */
  predicate SizesFit(e: Entries, lowmem: nat)
    requires 0 < lowmem < WORD
  {
    var i, s, kernelEnd := Given(e, lowmem), Header(e), 0x100000 + Long(e, KERNEL_SIZE);
    && s.High() && s.protocol >= 0x202
    && Long(e, SETUP_ADDR) + SetupLength(e) <= 0x20000
    && i.cmdlineSize <= 0xE0000
    && kernelEnd <= lowmem
    && (i.initrdSize > 0 ==> kernelEnd + i.initrdSize + 4095 <= InitrdMax(s, lowmem))
  }

  /** The placements keep the parts apart, and everything below the top of low memory, whenever the
      sizes fit. */
  lemma SizesSuffice(e: Entries, lowmem: nat, size: nat)
    requires 0 < lowmem < WORD && lowmem <= size && SizesFit(e, lowmem)
    ensures Apart(Parts(e, lowmem)) && InMemory(e, lowmem, size)
  {
    hide Patched, Stream, SetupOf, Long, SetupLength, InitrdMax, InitrdAddr;
    var i, s, ws := Given(e, lowmem), Header(e), Parts(e, lowmem);
    PeekFits(e);
    if i.initrdSize > 0 {
      InitrdAbove(s, lowmem, i.initrdSize, 0x100000 + Long(e, KERNEL_SIZE));
    }
    PartsInOrder(e, lowmem, size);
  }

  lemma PeekFits(e: Entries)
    ensures PEEK <= SetupLength(e)
  {
  }

  lemma InitrdAbove(s: Setup, lowmem: nat, size: nat, floor: nat)
    requires 0 < lowmem < WORD && 0 < size && floor + size + 4095 <= InitrdMax(s, lowmem)
    ensures var at := InitrdAddr(InitrdMax(s, lowmem), size); floor <= at && at + size < lowmem
  {
    hide RoundDown, InitrdMax;
    var max := InitrdMax(s, lowmem);
    MaxBelowLowmem(s, lowmem);
    WordDifference(max, size);
    MultipleAbove(max - size, 4096);
  }

  lemma MaxBelowLowmem(s: Setup, lowmem: nat)
    requires 0 < lowmem
    ensures InitrdMax(s, lowmem) < lowmem
  {
  }

  /** Parts that follow each other in memory. */
  lemma PartsInOrder(e: Entries, lowmem: nat, size: nat)
    requires 0 < lowmem < WORD && lowmem <= size && SizesFit(e, lowmem) && PEEK <= SetupLength(e)
    requires var i := Given(e, lowmem);
             i.initrdSize > 0 ==>
               var at := InitrdAddr(InitrdMax(Header(e), lowmem), i.initrdSize);
               0x100000 + Long(e, KERNEL_SIZE) <= at && at + i.initrdSize < lowmem
    ensures Apart(Parts(e, lowmem)) && InMemory(e, lowmem, size)
  {
    hide Patched, Stream, SetupOf, Long, SetupLength, InitrdMax, InitrdAddr;
  }

  /** So, from the sizes alone, the kernel finds everything. */
  lemma KernelFindsPartsBySize(m: seq<byte>, e: Entries, lowmem: nat)
    requires 0 < lowmem < WORD && lowmem <= |m| && SizesFit(e, lowmem) && Outcomes(e) == Loaded
    ensures var r, p, n := PutAll(m, Parts(e, lowmem)), Long(e, 0x16), SetupLength(e);
            && InMemory(e, lowmem, |m|) && p + n <= |r|
            && var setup := r[p..p + n];
            && (forall k | 0 <= k < n && !MayChange(Header(e).protocol, k) :: setup[k] == SetupData(e, n)[k])
            && FindsCmdline(r, setup, Stream(Entry(e, 0x15), 0, Long(e, 0x14)))
            && FindsInitrd(r, setup, Stream(Entry(e, 0x12), 0, Long(e, 0x0b)))
            && r[0x100000..0x100000 + Long(e, 0x08)] == Stream(Entry(e, 0x11), 0, Long(e, 0x08))
  {
    hide PutAll, Patched, Stream, SetupOf, Long, SetupLength, MayChange, Apart, Outcomes;
    hide InitrdMax, InitrdAddr, InMemory, FindsCmdline, FindsInitrd;
    SizesSuffice(e, lowmem, |m|);
    KernelFindsParts(m, e, lowmem);
    LoadedParts(m, e, lowmem);
    assert Parts(e, lowmem)[1] in Parts(e, lowmem);
  }
}
