/** What a reader of the finished MP table finds, byte by byte (sections 4.1 to 4.3 of the Intel
    MultiProcessor Specification 1.4). Only `Parse` and the offsets of that specification are used. */
module MpTheorems {
  import opened Bytes
  import opened MpTable

  predicate IsOfType(e: Entry, kind: byte) {
    e != [] && e[0] == kind && |e| == if kind == 0 then 20 else 8
  }

  /** Processor i: its number, enabled, and the one that boots if it is the first. */
  predicate IsProcessor(e: Entry, i: nat, signature: nat, features: nat) {
    && IsOfType(e, 0) && e[1] == i % 256 && e[2] == 0x14
    && e[3] % 2 == 1 && (e[3] / 2 % 2 == 1 <==> i == 0) && e[3] / 4 == 0
    && e[12..] == [0, 0, 0, 0, 0, 0, 0, 0]
    && NumberAt(e, 4, 4) == signature && NumberAt(e, 8, 4) == features
  }

  /** The bus that ISA interrupts come from. */
  predicate IsIsaBus(e: Entry) {
    IsOfType(e, 1) && e[2..] == Ascii("ISA   ")
  }

  /** The I/O APIC, usable and at its default address. */
  predicate IsIoApic(e: Entry) {
    IsOfType(e, 2) && e[2] == 0x14 && e[3] == 1 && NumberAt(e, 4, 4) == 0xfec00000
  }

  /** Interrupt request line irq of a bus arrives at the pin of the I/O APIC of the same number; with
      the timer override, line 0 arrives at pin 2. */
  predicate IsSource(e: Entry, busEntry: Entry, apic: Entry, irq: nat, timerOverride: bool) {
    && IsOfType(e, 3) && |busEntry| > 1 && |apic| > 1
    && e[1] == 0 && NumberAt(e, 2, 2) == 0
    && e[4] == busEntry[1] && e[5] as nat == irq && e[6] == apic[1]
    && e[7] as nat == if timerOverride && irq == 0 then 2 else irq
  }

  /** A local interrupt of a type, for one or, with 0xFF, for every processor. */
  predicate IsLocal(e: Entry, irqType: byte, processor: byte, pin: byte) {
    IsOfType(e, 4) && e[1..6] == [irqType, 0, 0, 0, 0] && e[6] == processor && e[7] == pin
  }

  /** The k-th line that has an entry: line 2 has none with the timer override. */
  function Line(k: nat, timerOverride: bool): nat {
    if timerOverride && k >= 2 then k + 1 else k
  }

  /** The entries of a table for n processors. */
  ghost predicate Describes(es: seq<Entry>, n: nat, timerOverride: bool, signature: nat, features: nat) {
    var lines := if timerOverride then 15 else 16;
    && |es| == n + 4 + lines
    && (forall i | 0 <= i < n :: IsProcessor(es[i], i, signature, features))
    && IsIsaBus(es[n]) && IsIoApic(es[n + 1])
    && (forall k | 0 <= k < lines :: IsSource(es[n + 2 + k], es[n], es[n + 1], Line(k, timerOverride), timerOverride))
    && IsLocal(es[n + 2 + lines], 3, 0, 0) && IsLocal(es[n + 3 + lines], 1, 0xFF, 1)
  }

  /** Memory from 0x9fc00 on: the floating pointer leads to the table, the table has its names, no OEM
      table and the default local APIC address, both sum to zero, and reading the entries gives the ones
      for n processors. Their count stays zero. */
  ghost predicate TableReads(m: seq<byte>, n: nat, timerOverride: bool, signature: nat, features: nat) {
    var at := NumberAt(m, 4, 4) - 0x9fc00;
    && Stretch(m, 0, 4) == Ascii("_MP_") && Stretch(m, 8, 2) == [1, 4] && Stretch(m, 11, 5) == [0, 0, 0, 0, 0]
    && Sum(Stretch(m, 0, 16)) % 256 == 0
    && at > 0 && Stretch(m, at, 4) == Ascii("PCMP")
    && var length := NumberAt(m, at + 4, 2);
    && Stretch(m, at + 6, 1) == [4] && NumberAt(m, at + 36, 4) == 0xfee00000
    && Stretch(m, at + 8, 8) == Ascii("QBOOT   ") && Stretch(m, at + 16, 12) == Ascii("000000000000")
    && Stretch(m, at + 28, 8) == [0, 0, 0, 0, 0, 0, 0, 0]
    && Stretch(m, at + 40, 4) == [0, 0, 0, 0] && Sum(Stretch(m, at, length)) % 256 == 0
    && 44 <= length && at + length <= |m|
    && var es := Parse(m[at + 44..at + length]);
    && es.Some? && Describes(es.value, n, timerOverride, signature, features)
  }

  /** The I/O APIC differs from every processor exactly for up to 254 of them. */
  lemma ApicDiffers(es: seq<Entry>, n: nat, timerOverride: bool, stepping: nat, features: nat)
    requires es == Intended(n, timerOverride, stepping, features)
    ensures |es| > n + 1 && |es[n + 1]| == 8 && forall i | 0 <= i < n :: |es[i]| == 20
    ensures (forall i | 0 <= i < n :: es[i][1] != es[n + 1][1]) <==> n <= 254
  {
    hide Intended;
    IntendedAre(n, timerOverride, stepping, features);
    forall i | 0 <= i < n ensures |es[i]| == 20 && es[i][1] == i % 256 {
      assert es[i] == Cpu(i, stepping, features);
    }
    if n > 254 {
      var i := (n + 1) % 256;
      assert es[i][1] == es[n + 1][1];
    }
  }

  lemma ProcessorRead(i: nat, stepping: nat, features: nat)
    requires stepping < WORD && features < WORD
    ensures IsProcessor(Cpu(i, stepping, features), i, stepping, features)
  {
    hide ToLE, FromLE, Pow256;
    var e := Cpu(i, stepping, features);
    assert e[4..8] == ToLE(stepping, 4) && e[8..12] == ToLE(features, 4);
    NumberRead(stepping, 4);
    NumberRead(features, 4);
  }

  lemma NumberRead(v: nat, n: nat)
    requires (n == 4 && v < WORD) || (n == 2 && v < 65536)
    ensures FromLE(ToLE(v, n)) == v
  {
    hide ToLE, FromLE, Pow256;
    FourBytes();
    FromToLE(v, n);
    SmallMod(v, Pow256(n));
  }

  lemma ApicRead(n: nat)
    ensures IsIoApic(IoApic(n)) && IsIsaBus(IsaBus())
  {
    hide FromLE;
    FourFrom(IoApic(n)[4..8]);
  }

  lemma SourceRead(n: nat, k: nat, timerOverride: bool)
    requires k < if timerOverride then 15 else 16
    ensures IsSource(IntSrc(n, SourceOf(k, timerOverride), DestOf(k, timerOverride)), IsaBus(), IoApic(n),
                     Line(k, timerOverride), timerOverride)
  {
    ZeroRead();
    assert IntSrc(n, SourceOf(k, timerOverride), DestOf(k, timerOverride))[2..4] == [0, 0];
  }

  lemma ZeroRead()
    ensures FromLE([0, 0]) == 0
  {
    assert [0, 0][1..] == [0] && [0][1..] == [];
    assert FromLE([0]) == 0;
  }

  lemma LocalRead(irqType: byte, dest: byte, lint: byte)
    ensures IsLocal(LintSrc(irqType, dest, lint), irqType, dest, lint)
  {
    ZeroRead();
    assert LintSrc(irqType, dest, lint)[2..4] == [0, 0];
  }

  lemma IntendedDescribes(n: nat, timerOverride: bool, stepping: nat, features: nat)
    requires stepping < WORD && features < WORD
    ensures Describes(Intended(n, timerOverride, stepping, features), n, timerOverride, stepping, features)
  {
    hide Intended, IsProcessor, IsSource, IsIoApic, IsIsaBus, IsLocal, Cpu, IntSrc, IoApic, IsaBus, LintSrc;
    var es, lines := Intended(n, timerOverride, stepping, features), if timerOverride then 15 else 16;
    IntendedAre(n, timerOverride, stepping, features);
    forall i | 0 <= i < n ensures IsProcessor(es[i], i, stepping, features) {
      ProcessorRead(i, stepping, features);
    }
    ApicRead(n);
    forall k | 0 <= k < lines
      ensures IsSource(es[n + 2 + k], es[n], es[n + 1], Line(k, timerOverride), timerOverride)
    {
      SourceRead(n, k, timerOverride);
    }
    LocalRead(3, 0, 0);
    LocalRead(1, 0xFF, 1);
  }

  lemma PointerRead(x: byte)
    ensures var f := Mpf(x);
            && |f| == 16 && f[0..4] == Ascii("_MP_") && FromLE(f[4..8]) == 0x9fc10 && f[8..10] == [1, 4]
            && f[11..16] == [0, 0, 0, 0, 0]
  {
    hide ToLE, FromLE;
    NumberRead(0x9fc10, 4);
    assert Mpf(x)[4..8] == ToLE(0x9fc10, 4);
  }

  lemma OemName()
    ensures OEM == Ascii("QBOOT   ")
  {
  }

  lemma ProductName()
    ensures PRODUCT_ID == Ascii("000000000000")
  {
  }

  lemma HeaderRead(length: nat, x: byte)
    requires length < 65536
    ensures var h := Header(length, x);
            && |h| == 44 && h[0..4] == Ascii("PCMP") && FromLE(h[4..6]) == length && h[6..7] == [4]
            && h[8..] == HEADER_REST
  {
    hide ToLE, FromLE;
    var h := Header(length, x);
    NumberRead(length, 2);
    assert h[4..6] == ToLE(length, 2);
  }

  lemma RestRead(h: seq<byte>)
    requires |h| == 44 && h[8..] == HEADER_REST
    ensures h[8..16] == Ascii("QBOOT   ") && h[16..28] == Ascii("000000000000")
    ensures h[28..36] == [0, 0, 0, 0, 0, 0, 0, 0] && FromLE(h[36..40]) == 0xfee00000 && h[40..44] == [0, 0, 0, 0]
  {
    hide FromLE;
    OemName();
    ProductName();
    var rest := [0, 0, 0, 0, 0, 0, 0, 0, 0x00, 0x00, 0xE0, 0xFE, 0, 0, 0, 0];
    assert h[8..16] == OEM && h[16..28] == PRODUCT_ID && h[28..] == rest;
    assert h[28..36] == rest[..8] && h[36..40] == rest[8..12] && h[40..44] == rest[12..];
    FourFrom(h[36..40]);
  }

  /** Memory with pointer, header and intended entries reads like that. */
  lemma FinishedTable(m: seq<byte>, n: nat, timerOverride: bool, stepping: nat, features: nat, x: byte, y: byte)
    requires stepping < WORD && features < WORD
    requires var length := TableLength(n, timerOverride);
             && length < 65536 && 16 + length <= |m|
             && m[..16] == Mpf(x) && m[16..60] == Header(length, y)
             && m[60..16 + length] == Flatten(Intended(n, timerOverride, stepping, features))
             && Sum(m[..16]) % 256 == 0 && Sum(m[16..16 + length]) % 256 == 0
    ensures TableReads(m, n, timerOverride, stepping, features)
  {
    hide Mpf, Header, Flatten, Intended, FromLE, Parse, Describes;
    var length := TableLength(n, timerOverride);
    PointerRead(x);
    HeaderRead(length, y);
    RestRead(Header(length, y));
    assert m[..16] == m[0..16];
    SliceOfSlice(m, 0, 16, 0, 4);
    SliceOfSlice(m, 0, 16, 4, 4);
    SliceOfSlice(m, 0, 16, 8, 2);
    SliceOfSlice(m, 16, 44, 0, 4);
    SliceOfSlice(m, 16, 44, 4, 2);
    SliceOfSlice(m, 16, 44, 6, 1);
    SliceOfSlice(m, 16, 44, 36, 4);
    SliceOfSlice(m, 0, 16, 11, 5);
    SliceOfSlice(m, 16, 44, 8, 8);
    SliceOfSlice(m, 16, 44, 16, 12);
    SliceOfSlice(m, 16, 44, 28, 8);
    SliceOfSlice(m, 16, 44, 40, 4);
    IntendedReadsBack(n, timerOverride, stepping, features);
    IntendedDescribes(n, timerOverride, stepping, features);
  }

  /** setup_mptable, as software that looks for processors and interrupts finds it. */
  method SetupAndRead(mem: array<byte>, numCpus: nat, irq0Override: nat, stepping: nat, features: nat)
    requires stepping < WORD && features < WORD
    requires var length := TableLength(numCpus, irq0Override != 0);
             length < 65536 && MPF_SIZE + length <= mem.Length
    modifies mem
    ensures TableReads(mem[..], numCpus, irq0Override != 0, stepping, features)
  {
    hide Mpf, Header, Flatten, Intended, TableReads;
    SetupMpTable(mem, numCpus, irq0Override, stepping, features);
    var length := TableLength(numCpus, irq0Override != 0);
    assert mem[..][..16] == mem[..16] && mem[..][16..60] == mem[16..60];
    assert mem[..][60..16 + length] == mem[60..16 + length] && mem[..][16..16 + length] == mem[16..16 + length];
    FinishedTable(mem[..], numCpus, irq0Override != 0, stepping, features, mem[10], mem[23]);
  }
}
