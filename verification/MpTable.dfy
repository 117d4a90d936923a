/** The MultiProcessor configuration table that mptable.c writes into the EBDA (sections 4.1 to 4.3
    of the Intel MultiProcessor Specification 1.4). Memory is indexed from 0x9fc00. */
module MpTable {
  import opened Bytes
  import opened FwCfg

  const MPTABLE_START: nat := 0x9fc00
  const MPF_SIZE: nat := 16
  const HEADER_SIZE: nat := 44
  const CPU_SIZE: nat := 20
  const OTHER_SIZE: nat := 8
  const APIC_VERSION: byte := 0x14

  // ---------- what the table should say ----------

  type Entry = seq<byte>

  function Cpu(i: nat, stepping: nat, features: nat): Entry {
    [0, i % 256, APIC_VERSION, if i == 0 then 3 else 1] + ToLE(stepping, 4) + ToLE(features, 4)
    + [0, 0, 0, 0, 0, 0, 0, 0]
  }

  /** The ISA bus. */
  function IsaBus(): Entry {
    [1, 0, 0x49, 0x53, 0x41, 0x20, 0x20, 0x20]
  }

  function IoApic(cpus: nat): Entry {
    [2, (cpus + 1) % 256, APIC_VERSION, 1, 0x00, 0x00, 0xC0, 0xFE]
  }

  function IntSrc(cpus: nat, source: byte, dest: byte): Entry {
    [3, 0, 0, 0, 0, source, (cpus + 1) % 256, dest]
  }

  function LintSrc(irqType: byte, dest: byte, lint: byte): Entry {
    [4, irqType, 0, 0, 0, 0, dest, lint]
  }

  function Cpus(n: nat, stepping: nat, features: nat): seq<Entry> {
    if n == 0 then [] else Cpus(n - 1, stepping, features) + [Cpu(n - 1, stepping, features)]
  }

  /** The interrupt sources below k: with the timer override, source 0 goes to pin 2 and source 2
      has no entry. */
  function IntSrcs(cpus: nat, k: nat, timerOverride: bool): seq<Entry>
    requires k <= 16
  {
    if k == 0 then []
    else
      var i := k - 1;
      IntSrcs(cpus, i, timerOverride) +
      if timerOverride && i == 2 then []
      else [IntSrc(cpus, i, if timerOverride && i == 0 then 2 else i)]
  }

  function Intended(n: nat, timerOverride: bool, stepping: nat, features: nat): seq<Entry> {
    Cpus(n, stepping, features) + [IsaBus(), IoApic(n)] + IntSrcs(n, 16, timerOverride)
    + [LintSrc(3, 0, 0), LintSrc(1, 0xFF, 1)]
  }

  function Flatten(es: seq<Entry>): seq<byte> {
    if es == [] then [] else Flatten(es[..|es| - 1]) + es[|es| - 1]
  }

  /** "_MP_", the address of the table, length 1 paragraph, revision 4, a checksum. */
  function Mpf(checksum: byte): seq<byte> {
    [0x5F, 0x4D, 0x50, 0x5F] + ToLE(MPTABLE_START + MPF_SIZE, 4) + [1, 4, checksum, 0, 0, 0, 0, 0]
  }

  /** "PCMP", length, revision 4, a checksum, "QBOOT   ", "000000000000", no OEM table, an entry
      count that is never filled in, and the local APIC address. */
  function Header(length: nat, checksum: byte): seq<byte> {
    [0x50, 0x43, 0x4D, 0x50] + ToLE(length, 2) + [4] + [checksum] + HEADER_REST
  }

  const OEM: seq<byte> := [0x51, 0x42, 0x4F, 0x4F, 0x54, 0x20, 0x20, 0x20]
  const PRODUCT_ID: seq<byte> := [0x30, 0x30, 0x30, 0x30, 0x30, 0x30, 0x30, 0x30, 0x30, 0x30, 0x30, 0x30]
  const HEADER_REST: seq<byte> :=
    OEM + PRODUCT_ID + [0, 0, 0, 0, 0, 0, 0, 0, 0x00, 0x00, 0xE0, 0xFE, 0, 0, 0, 0]

  /** The length of header and entries. */
  function TableLength(n: nat, timerOverride: bool): nat {
    HEADER_SIZE + CPU_SIZE * n + OTHER_SIZE * (if timerOverride then 19 else 20)
  }

  // ---------- reading a table ----------

  function EntrySize(kind: byte): nat {
    if kind == 0 then CPU_SIZE else OTHER_SIZE
  }

  predicate IsEntry(e: Entry) {
    e != [] && |e| == EntrySize(e[0])
  }

  /** Entry by entry, with the sizes that the types determine; None if the last one does not end
      where the bytes do. */
  function Parse(b: seq<byte>): Option<seq<Entry>> {
    if b == [] then Some([])
    else
      var n := EntrySize(b[0]);
      if n > |b| then None
      else
        var rest := Parse(b[n..]);
        if rest.None? then None else Some([b[..n]] + rest.value)
  }

  lemma {:induction false} FlattenCons(e: Entry, es: seq<Entry>)
    ensures Flatten([e] + es) == e + Flatten(es)
  {
    if es == [] {
      assert [e] + es == [e] && [e][..0] == [];
      assert Flatten([e]) == Flatten([]) + e;
    } else {
      var n := |es| - 1;
      assert ([e] + es)[..n + 1] == [e] + es[..n] && ([e] + es)[n + 1] == es[n];
      FlattenCons(e, es[..n]);
    }
  }

  lemma ParseCons(e: Entry, r: seq<byte>)
    requires IsEntry(e)
    ensures Parse(e + r) == if Parse(r).None? then None else Some([e] + Parse(r).value)
  {
    var b := e + r;
    assert b[0] == e[0] && b[..|e|] == e && b[|e|..] == r;
  }

  /** Reading the bytes of any list of entries gives the list back. */
  lemma {:induction false} ParseInvertsFlatten(es: seq<Entry>)
    requires forall e | e in es :: IsEntry(e)
    ensures Parse(Flatten(es)) == Some(es)
  {
    if es != [] {
      assert es == [es[0]] + es[1..];
      FlattenCons(es[0], es[1..]);
      ParseInvertsFlatten(es[1..]);
      ParseCons(es[0], Flatten(es[1..]));
    }
  }

  lemma FlattenSnoc(es: seq<Entry>, e: Entry)
    ensures Flatten(es + [e]) == Flatten(es) + e
  {
    assert (es + [e])[..|es|] == es;
  }

  lemma {:induction false} FlattenConcat(a: seq<Entry>, b: seq<Entry>)
    ensures Flatten(a + b) == Flatten(a) + Flatten(b)
  {
    if b == [] {
      assert a + b == a;
    } else {
      var n := |b| - 1;
      assert a + b == (a + b[..n]) + [b[n]] && b == b[..n] + [b[n]];
      FlattenConcat(a, b[..n]);
      FlattenSnoc(a + b[..n], b[n]);
    }
  }

  // ---------- properties of the intended table ----------

  lemma {:induction false} CpusAre(n: nat, stepping: nat, features: nat)
    ensures |Cpus(n, stepping, features)| == n
    ensures |Flatten(Cpus(n, stepping, features))| == CPU_SIZE * n
    ensures forall i | 0 <= i < n :: Cpus(n, stepping, features)[i] == Cpu(i, stepping, features)
  {
    hide Cpu, ToLE;
    if n > 0 {
      CpusAre(n - 1, stepping, features);
      FlattenSnoc(Cpus(n - 1, stepping, features), Cpu(n - 1, stepping, features));
      CpuSize(n - 1, stepping, features);
    }
  }

  lemma CpuSize(i: nat, stepping: nat, features: nat)
    ensures |Cpu(i, stepping, features)| == CPU_SIZE && Cpu(i, stepping, features)[0] == 0
  {
  }

  /** The k-th interrupt source that gets an entry. */
  function SourceOf(k: nat, timerOverride: bool): nat {
    if timerOverride && k >= 2 then k + 1 else k
  }

  function DestOf(k: nat, timerOverride: bool): nat {
    if timerOverride && k == 0 then 2 else SourceOf(k, timerOverride)
  }

  lemma {:induction false} IntSrcsLength(cpus: nat, k: nat, timerOverride: bool)
    requires k <= 16
    ensures var es := IntSrcs(cpus, k, timerOverride);
            && |es| == (if timerOverride && k > 2 then k - 1 else k)
            && |Flatten(es)| == OTHER_SIZE * |es|
  {
    hide IntSrc, Flatten;
    if k == 0 {
      FlattenNothing();
    } else {
      var i := k - 1;
      IntSrcsLength(cpus, i, timerOverride);
      var dest := if timerOverride && i == 0 then 2 else i;
      FlattenSnoc(IntSrcs(cpus, i, timerOverride), IntSrc(cpus, i, dest));
      IntSrcSize(cpus, i, dest);
      assert IntSrcs(cpus, i, timerOverride) + [] == IntSrcs(cpus, i, timerOverride);
    }
  }

  lemma FlattenNothing()
    ensures Flatten([]) == []
  {
  }

  lemma IntSrcsStep(cpus: nat, i: nat, timerOverride: bool)
    requires i < 16
    ensures IntSrcs(cpus, i + 1, timerOverride) ==
            if timerOverride && i == 2 then IntSrcs(cpus, i, timerOverride)
            else IntSrcs(cpus, i, timerOverride) + [IntSrc(cpus, i, if timerOverride && i == 0 then 2 else i)]
  {
    hide IntSrc;
    var before := IntSrcs(cpus, i, timerOverride);
    assert before + [] == before;
  }

  lemma {:induction false} IntSrcsAt(cpus: nat, k: nat, timerOverride: bool, i: nat)
    requires k <= 16 && SourceOf(i, timerOverride) < k
    ensures i < |IntSrcs(cpus, k, timerOverride)|
    ensures IntSrcs(cpus, k, timerOverride)[i] ==
            IntSrc(cpus, SourceOf(i, timerOverride), DestOf(i, timerOverride))
  {
    hide IntSrc, IntSrcs, Flatten;
    IntSrcsStep(cpus, k - 1, timerOverride);
    IntSrcsLength(cpus, k - 1, timerOverride);
    if SourceOf(i, timerOverride) < k - 1 {
      IntSrcsAt(cpus, k - 1, timerOverride, i);
    }
  }

  lemma IntSrcsAre(cpus: nat, timerOverride: bool)
    ensures var es := IntSrcs(cpus, 16, timerOverride);
            && |es| == (if timerOverride then 15 else 16)
            && |Flatten(es)| == OTHER_SIZE * |es|
            && forall i | 0 <= i < |es| ::
                 es[i] == IntSrc(cpus, SourceOf(i, timerOverride), DestOf(i, timerOverride))
  {
    hide IntSrcs, IntSrc, Flatten;
    IntSrcsLength(cpus, 16, timerOverride);
    var es := IntSrcs(cpus, 16, timerOverride);
    forall i | 0 <= i < |es|
      ensures es[i] == IntSrc(cpus, SourceOf(i, timerOverride), DestOf(i, timerOverride))
    {
      IntSrcsAt(cpus, 16, timerOverride, i);
    }
  }

  lemma IntSrcSize(cpus: nat, source: byte, dest: byte)
    ensures |IntSrc(cpus, source, dest)| == OTHER_SIZE
  {
  }

  /** Different interrupt sources keep different I/O APIC pins, with or without the override. */
  lemma PinsDiffer(cpus: nat, timerOverride: bool, i: nat, j: nat)
    requires i < j < |IntSrcs(cpus, 16, timerOverride)|
    ensures var es := IntSrcs(cpus, 16, timerOverride);
            && |es[i]| == OTHER_SIZE && |es[j]| == OTHER_SIZE
            && es[i][5] != es[j][5] && es[i][7] != es[j][7]
  {
    hide IntSrcs;
    IntSrcsAre(cpus, timerOverride);
  }

  /** Where the parts of the intended table begin. */
  lemma IntendedAre(n: nat, timerOverride: bool, stepping: nat, features: nat)
    ensures var es := Intended(n, timerOverride, stepping, features);
            var sources := if timerOverride then 15 else 16;
            && |es| == n + 4 + sources
            && (forall i | 0 <= i < n :: es[i] == Cpu(i, stepping, features))
            && es[n] == IsaBus() && es[n + 1] == IoApic(n)
            && (forall i | 0 <= i < sources ::
                  es[n + 2 + i] == IntSrc(n, SourceOf(i, timerOverride), DestOf(i, timerOverride)))
            && es[n + 2 + sources] == LintSrc(3, 0, 0) && es[n + 3 + sources] == LintSrc(1, 0xFF, 1)
  {
    hide Cpus, IntSrcs, Cpu, IntSrc, IsaBus, IoApic, LintSrc;
    CpusAre(n, stepping, features);
    IntSrcsAre(n, timerOverride);
  }

  function TypeOf(cpus: nat, sources: nat, i: nat): byte {
    if i < cpus then 0
    else if i == cpus then 1
    else if i == cpus + 1 then 2
    else if i < cpus + 2 + sources then 3
    else 4
  }

  /** Reading the intended bytes by type-determined sizes recovers all entries, and they come in
      ascending order of type. */
  lemma IntendedReadsBack(n: nat, timerOverride: bool, stepping: nat, features: nat)
    ensures var es := Intended(n, timerOverride, stepping, features);
            && Parse(Flatten(es)) == Some(es)
            && forall i, j | 0 <= i <= j < |es| :: es[i] != [] && es[j] != [] && es[i][0] <= es[j][0]
  {
    hide Intended;
    var es := Intended(n, timerOverride, stepping, features);
    IntendedAre(n, timerOverride, stepping, features);
    var sources := if timerOverride then 15 else 16;
    forall i | 0 <= i < |es|
      ensures IsEntry(es[i]) && es[i][0] == TypeOf(n, sources, i)
    {
      if i < n {
        CpuSize(i, stepping, features);
      } else if n + 2 <= i < n + 2 + sources {
        var k := i - n - 2;
        assert es[n + 2 + k] == IntSrc(n, SourceOf(k, timerOverride), DestOf(k, timerOverride));
      }
    }
    forall e | e in es ensures IsEntry(e) {
    }
    ParseInvertsFlatten(es);
  }

  lemma IntendedLength(n: nat, timerOverride: bool, stepping: nat, features: nat)
    ensures HEADER_SIZE + |Flatten(Intended(n, timerOverride, stepping, features))| == TableLength(n, timerOverride)
  {
    hide Cpus, IntSrcs;
    CpusAre(n, stepping, features);
    IntSrcsAre(n, timerOverride);
    var c, s := Cpus(n, stepping, features), IntSrcs(n, 16, timerOverride);
    var p, l := [IsaBus(), IoApic(n)], [LintSrc(3, 0, 0), LintSrc(1, 0xFF, 1)];
    FlattenConcat(c, p);
    FlattenConcat(c + p, s);
    FlattenConcat(c + p + s, l);
    FlattenTwo(IsaBus(), IoApic(n));
    FlattenTwo(LintSrc(3, 0, 0), LintSrc(1, 0xFF, 1));
  }

  lemma FlattenTwo(a: Entry, b: Entry)
    ensures Flatten([a, b]) == a + b
  {
    assert [a, b] == [a] + [b] && [a][..0] == [] && [a, b][..1] == [a];
    assert Flatten([]) == [] && Flatten([a]) == a;
  }

  /** The table fits the reserved kilobyte exactly for up to 40 processors. */
  lemma FitsEbda(n: nat, timerOverride: bool)
    ensures MPF_SIZE + TableLength(n, timerOverride) <= 1024 <==> n <= 40
  {
  }

  // ---------- mptable.c ----------

  function Signed(b: byte): (v: int)
    ensures -128 <= v < 128 && (v - b) % 256 == 0
  {
    if b < 128 then b else b - 256
  }

  /** The sum of signed bytes agrees with that of unsigned ones as far as a checksum cares. */
  method MpTableChecksum(mem: array<byte>, p: nat, size: nat) returns (sum: int)
    requires p + size <= mem.Length
    ensures sum % 256 == Sum(mem[p..p + size]) % 256
  {
    sum := 0;
    assert mem[p..p] == [];
    for i := 0 to size
      invariant sum % 256 == Sum(mem[p..p + i]) % 256
    {
      assert mem[p..p + i + 1] == mem[p..p + i] + [mem[p + i]];
      SumSnoc(mem[p..p + i], mem[p + i]);
      SignedSum(sum, Sum(mem[p..p + i]), mem[p + i]);
      sum := sum + Signed(mem[p + i]);
    }
  }

  lemma SignedSum(a: int, b: nat, x: byte)
    requires a % 256 == b % 256
    ensures (a + Signed(x)) % 256 == (b + x) % 256
  {
    assert (a + x) % 256 == (b + x) % 256;
    assert (a + x - 256) % 256 == (a + x) % 256;
  }

  /** What every step of the builder does: put an entry at the offset, add its bytes to the running
      checksum, and go on behind it. */
  method Emit(mem: array<byte>, ghost es: seq<Entry>, ghost end: nat, e: Entry, offset: nat, checksum: int)
    returns (offset': nat, checksum': int)
    requires MPF_SIZE + HEADER_SIZE <= offset && offset + |e| <= end <= mem.Length
    requires mem[MPF_SIZE + HEADER_SIZE..offset] == Flatten(es)
    requires checksum % 256 == Sum(Flatten(es)) % 256
    modifies mem
    ensures offset' == offset + |e| && mem[MPF_SIZE + HEADER_SIZE..offset'] == Flatten(es + [e])
    ensures checksum' % 256 == Sum(Flatten(es + [e])) % 256
    ensures mem[..MPF_SIZE + HEADER_SIZE] == old(mem[..MPF_SIZE + HEADER_SIZE])
    ensures mem[end..] == old(mem[end..])
  {
    hide Flatten, Sum;
    ghost var lo := MPF_SIZE + HEADER_SIZE;
    FlattenSnoc(es, e);
    SumConcat(Flatten(es), e);
    StoreBehind(mem[..], lo, offset, end, e);
    Store(mem, offset, e);
    var sum := MpTableChecksum(mem, offset, |e|);
    assert mem[offset..offset + |e|] == mem[..][offset..offset + |e|] == e;
    assert mem[lo..offset + |e|] == mem[..][lo..offset + |e|];
    assert mem[..lo] == mem[..][..lo] && mem[end..] == mem[..][end..];
    SumMod(checksum, Sum(Flatten(es)), sum, Sum(e));
    offset' := offset + |e|;
    checksum' := checksum + sum;
  }

  lemma StoreBehind(m: seq<byte>, lo: nat, offset: nat, end: nat, e: seq<byte>)
    requires lo <= offset && offset + |e| <= end <= |m|
    ensures var r := Patch(m, offset, e);
            && r[offset..offset + |e|] == e && r[lo..offset + |e|] == m[lo..offset] + e
            && r[..lo] == m[..lo] && r[end..] == m[end..]
  {
  }

  lemma SumMod(a: int, a': nat, b: int, b': nat)
    requires a % 256 == a' % 256 && b % 256 == b' % 256
    ensures (a + b) % 256 == (a' + b') % 256
  {
    AddMod(a, a', b);
    AddMod(b, b', a');
  }

  lemma AddMod(a: int, a': int, b: int)
    requires a % 256 == a' % 256
    ensures (a + b) % 256 == (a' + b) % 256
  {
    var k := a / 256 - a' / 256;
    assert a + b == a' + b + 256 * k;
    MultipleOff(a' + b, k);
  }

  lemma MultipleOff(x: int, k: int)
    ensures (x + 256 * k) % 256 == x % 256
  {
  }

  /** The floating pointer structure, with its checksum. */
  method WriteMpf(mem: array<byte>)
    requires MPF_SIZE <= mem.Length
    modifies mem
    ensures mem[..MPF_SIZE] == Mpf(mem[10]) && Sum(mem[..MPF_SIZE]) % 256 == 0
    ensures mem[MPF_SIZE..] == old(mem[MPF_SIZE..])
  {
    hide Mpf, Sum;
    MpfFields(0);
    StoreBehind(mem[..], 0, 0, MPF_SIZE, Mpf(0));
    Store(mem, 0, Mpf(0));
    assert mem[..MPF_SIZE] == mem[..][0..MPF_SIZE] && mem[MPF_SIZE..] == mem[..][MPF_SIZE..];
    var sum := MpTableChecksum(mem, 0, MPF_SIZE);
    assert mem[0..MPF_SIZE] == mem[..MPF_SIZE] == Mpf(0);
    assert mem[10] == mem[..MPF_SIZE][10] == 0;
    var x: byte := (0 - sum) % 256;
    MpfFields(x);
    ZeroedBy(Mpf(0), 10, sum, x);
    mem[10] := x;
    assert mem[..MPF_SIZE] == Mpf(0)[10 := x];
  }

  lemma MpfFields(x: byte)
    ensures |Mpf(0)| == MPF_SIZE && Mpf(0)[10] == 0 && Mpf(0)[10 := x] == Mpf(x) && Mpf(x)[10] == x
  {
    hide ToLE;
    var front := [0x5F, 0x4D, 0x50, 0x5F] + ToLE(MPTABLE_START + MPF_SIZE, 4) + [1, 4];
    Replace(front, [0], [x], [0, 0, 0, 0, 0]);
    assert Mpf(0) == front + [0] + [0, 0, 0, 0, 0] && Mpf(x) == front + [x] + [0, 0, 0, 0, 0];
  }

  /** Taking a sum that agrees modulo 256 out of one of the summed bytes. */
  lemma ZeroedBy(b: seq<byte>, i: nat, sum: int, x: byte)
    requires i < |b| && sum % 256 == Sum(b) % 256 && x == (b[i] as int - sum) % 256
    ensures Sum(b[i := x]) % 256 == 0
  {
    hide Sum;
    SumUpdate(b, i, x);
    TakenOut(Sum(b), b[i], sum, x);
  }

  lemma TakenOut(s: int, y: int, sum: int, x: int)
    requires sum % 256 == s % 256 && x == (y - sum) % 256
    ensures (s - y + x) % 256 == 0
  {
    var h, k := (y - sum) / 256, s / 256 - sum / 256;
    assert x == y - sum - 256 * h && s - sum == 256 * k;
    MultipleOff(0, k - h);
  }

  /** All processor entries. */
  method EmitCpus(mem: array<byte>, ghost end: nat, n: nat, stepping: nat, features: nat)
    returns (offset: nat, checksum: int)
    requires MPF_SIZE + HEADER_SIZE + CPU_SIZE * n <= end <= mem.Length
    modifies mem
    ensures offset == MPF_SIZE + HEADER_SIZE + CPU_SIZE * n
    ensures mem[MPF_SIZE + HEADER_SIZE..offset] == Flatten(Cpus(n, stepping, features))
    ensures checksum % 256 == Sum(Flatten(Cpus(n, stepping, features))) % 256
    ensures mem[..MPF_SIZE + HEADER_SIZE] == old(mem[..MPF_SIZE + HEADER_SIZE]) && mem[end..] == old(mem[end..])
  {
    hide Cpu;
    offset, checksum := MPF_SIZE + HEADER_SIZE, 0;
    assert mem[offset..offset] == [];
    for i := 0 to n
      invariant offset == MPF_SIZE + HEADER_SIZE + CPU_SIZE * i
      invariant mem[MPF_SIZE + HEADER_SIZE..offset] == Flatten(Cpus(i, stepping, features))
      invariant checksum % 256 == Sum(Flatten(Cpus(i, stepping, features))) % 256
      invariant mem[..MPF_SIZE + HEADER_SIZE] == old(mem[..MPF_SIZE + HEADER_SIZE]) && mem[end..] == old(mem[end..])
    {
      CpuSize(i, stepping, features);
      offset, checksum := Emit(mem, Cpus(i, stepping, features), end, Cpu(i, stepping, features), offset, checksum);
    }
  }

  /** All interrupt sources behind the entries es; the slot for source 2 is written but, with the
      override, not kept. */
  method EmitIntSrcs(mem: array<byte>, ghost es: seq<Entry>, ghost end: nat, cpus: nat, timerOverride: bool,
                     offset0: nat, checksum0: int)
    returns (offset: nat, checksum: int)
    requires MPF_SIZE + HEADER_SIZE <= offset0
    requires offset0 + OTHER_SIZE * (if timerOverride then 15 else 16) <= end <= mem.Length
    requires mem[MPF_SIZE + HEADER_SIZE..offset0] == Flatten(es) && checksum0 % 256 == Sum(Flatten(es)) % 256
    modifies mem
    ensures offset == offset0 + OTHER_SIZE * (if timerOverride then 15 else 16)
    ensures mem[MPF_SIZE + HEADER_SIZE..offset] == Flatten(es + IntSrcs(cpus, 16, timerOverride))
    ensures checksum % 256 == Sum(Flatten(es + IntSrcs(cpus, 16, timerOverride))) % 256
    ensures mem[..MPF_SIZE + HEADER_SIZE] == old(mem[..MPF_SIZE + HEADER_SIZE]) && mem[end..] == old(mem[end..])
  {
    hide IntSrc, Flatten, Sum, IntSrcs;
    offset, checksum := offset0, checksum0;
    NoSources(cpus, timerOverride);
    assert es + [] == es;
    for i := 0 to 16
      invariant offset == offset0 + OTHER_SIZE * (if timerOverride && i > 2 then i - 1 else i)
      invariant mem[MPF_SIZE + HEADER_SIZE..offset] == Flatten(es + IntSrcs(cpus, i, timerOverride))
      invariant checksum % 256 == Sum(Flatten(es + IntSrcs(cpus, i, timerOverride))) % 256
      invariant mem[..MPF_SIZE + HEADER_SIZE] == old(mem[..MPF_SIZE + HEADER_SIZE]) && mem[end..] == old(mem[end..])
    {
      NextSource(es, cpus, i, timerOverride);
      var dest := i;
      if timerOverride {
        if i == 0 {
          dest := 2;
        } else if i == 2 {
          IntSrcSize(cpus, i, dest);
          WriteUnkept(mem, MPF_SIZE + HEADER_SIZE, end, offset, IntSrc(cpus, i, dest));
          continue;
        }
      }
      IntSrcSize(cpus, i, dest);
      offset, checksum := Emit(mem, es + IntSrcs(cpus, i, timerOverride), end, IntSrc(cpus, i, dest), offset, checksum);
    }
  }

  lemma NoSources(cpus: nat, timerOverride: bool)
    ensures IntSrcs(cpus, 0, timerOverride) == []
  {
  }

  lemma NextSource(es: seq<Entry>, cpus: nat, i: nat, timerOverride: bool)
    requires i < 16
    ensures es + IntSrcs(cpus, i + 1, timerOverride) ==
            if timerOverride && i == 2 then es + IntSrcs(cpus, i, timerOverride)
            else es + IntSrcs(cpus, i, timerOverride) + [IntSrc(cpus, i, if timerOverride && i == 0 then 2 else i)]
  {
    hide IntSrc, IntSrcs;
    IntSrcsStep(cpus, i, timerOverride);
  }

  /** An entry that is written where the next one will go. */
  method WriteUnkept(mem: array<byte>, ghost lo: nat, ghost end: nat, offset: nat, e: Entry)
    requires lo <= offset && offset + |e| <= end <= mem.Length
    modifies mem
    ensures mem[lo..offset] == old(mem[lo..offset])
    ensures mem[..lo] == old(mem[..lo]) && mem[end..] == old(mem[end..])
  {
    Store(mem, offset, e);
    assert mem[lo..offset] == mem[..][lo..offset] && mem[..lo] == mem[..][..lo] && mem[end..] == mem[..][end..];
  }

  /** setup_mptable: for every processor count that fits, the memory holds the floating pointer and
      the table with exactly the intended entries; both sum to zero; nothing behind changes. */
  method SetupMpTable(mem: array<byte>, numCpus: nat, irq0Override: nat, stepping: nat, features: nat)
    requires var length := TableLength(numCpus, irq0Override != 0);
             length < 65536 && MPF_SIZE + length <= mem.Length
    modifies mem
    ensures mem[..MPF_SIZE] == Mpf(mem[10]) && Sum(mem[..MPF_SIZE]) % 256 == 0
    ensures var length := TableLength(numCpus, irq0Override != 0);
            && mem[MPF_SIZE..MPF_SIZE + HEADER_SIZE] == Header(length, mem[MPF_SIZE + 7])
            && mem[MPF_SIZE + HEADER_SIZE..MPF_SIZE + length] ==
               Flatten(Intended(numCpus, irq0Override != 0, stepping, features))
            && Sum(mem[MPF_SIZE..MPF_SIZE + length]) % 256 == 0
            && mem[MPF_SIZE + length..] == old(mem[MPF_SIZE + length..])
  {
    hide Flatten, Sum, Mpf, Header, Intended;
    var timerOverride := irq0Override != 0;
    ghost var end := MPF_SIZE + TableLength(numCpus, timerOverride);
    WriteMpf(mem);
    ghost var mpf := mem[..MPF_SIZE];
    assert mpf[10] == mem[10];
    assert mem[end..] == mem[MPF_SIZE..][end - MPF_SIZE..];
    WriteHeader(mem, end);
    FrontParts(mem);
    var offset, checksum := EmitAll(mem, end, numCpus, timerOverride, stepping, features);
    ghost var es := Intended(numCpus, timerOverride, stepping, features);
    FrontParts(mem);
    FinishHeader(mem, es, end, offset - MPF_SIZE, checksum);
    assert mem[..MPF_SIZE] == mpf;
    assert mem[10] == mem[..MPF_SIZE][10] == mpf[10];
  }

  /** All entries behind the header, in the order of their types. */
  method EmitAll(mem: array<byte>, ghost end: nat, numCpus: nat, timerOverride: bool, stepping: nat, features: nat)
    returns (offset: nat, checksum: int)
    requires end == MPF_SIZE + TableLength(numCpus, timerOverride) <= mem.Length
    modifies mem
    ensures offset == end
    ensures mem[MPF_SIZE + HEADER_SIZE..end] == Flatten(Intended(numCpus, timerOverride, stepping, features))
    ensures checksum % 256 == Sum(Flatten(Intended(numCpus, timerOverride, stepping, features))) % 256
    ensures mem[..MPF_SIZE + HEADER_SIZE] == old(mem[..MPF_SIZE + HEADER_SIZE]) && mem[end..] == old(mem[end..])
  {
    hide Flatten, Sum, Cpus, IntSrcs;
    offset, checksum := EmitCpus(mem, end, numCpus, stepping, features);
    ghost var es := Cpus(numCpus, stepping, features);
    offset, checksum := EmitTwo(mem, es, end, IsaBus(), IoApic(numCpus), offset, checksum);
    es := es + [IsaBus(), IoApic(numCpus)];
    offset, checksum := EmitIntSrcs(mem, es, end, numCpus, timerOverride, offset, checksum);
    es := es + IntSrcs(numCpus, 16, timerOverride);
    offset, checksum := EmitTwo(mem, es, end, LintSrc(3, 0, 0), LintSrc(1, 0xFF, 1), offset, checksum);
  }

  lemma FrontParts(mem: array<byte>)
    requires MPF_SIZE + HEADER_SIZE <= mem.Length
    ensures mem[..MPF_SIZE] == mem[..MPF_SIZE + HEADER_SIZE][..MPF_SIZE]
    ensures mem[MPF_SIZE..MPF_SIZE + HEADER_SIZE] == mem[..MPF_SIZE + HEADER_SIZE][MPF_SIZE..]
  {
  }

  method EmitTwo(mem: array<byte>, ghost es: seq<Entry>, ghost end: nat, a: Entry, b: Entry,
                 offset0: nat, checksum0: int)
    returns (offset: nat, checksum: int)
    requires MPF_SIZE + HEADER_SIZE <= offset0 && offset0 + |a| + |b| <= end <= mem.Length
    requires mem[MPF_SIZE + HEADER_SIZE..offset0] == Flatten(es) && checksum0 % 256 == Sum(Flatten(es)) % 256
    modifies mem
    ensures offset == offset0 + |a| + |b| && mem[MPF_SIZE + HEADER_SIZE..offset] == Flatten(es + [a, b])
    ensures checksum % 256 == Sum(Flatten(es + [a, b])) % 256
    ensures mem[..MPF_SIZE + HEADER_SIZE] == old(mem[..MPF_SIZE + HEADER_SIZE]) && mem[end..] == old(mem[end..])
  {
    hide Flatten, Sum;
    offset, checksum := Emit(mem, es, end, a, offset0, checksum0);
    offset, checksum := Emit(mem, es + [a], end, b, offset, checksum);
    assert es + [a] + [b] == es + [a, b];
  }

  /** The table header before length and checksum are known. */
  method WriteHeader(mem: array<byte>, ghost end: nat)
    requires MPF_SIZE + HEADER_SIZE <= end <= mem.Length
    modifies mem
    ensures mem[..MPF_SIZE] == old(mem[..MPF_SIZE]) && mem[end..] == old(mem[end..])
    ensures mem[MPF_SIZE..MPF_SIZE + HEADER_SIZE] == Header(0, 0)
  {
    hide Header;
    HeaderSize(0, 0);
    StoreBehind(mem[..], MPF_SIZE, MPF_SIZE, end, Header(0, 0));
    Store(mem, MPF_SIZE, Header(0, 0));
    assert mem[..MPF_SIZE] == mem[..][..MPF_SIZE] && mem[end..] == mem[..][end..];
    assert mem[MPF_SIZE..MPF_SIZE + HEADER_SIZE] == mem[..][MPF_SIZE..MPF_SIZE + HEADER_SIZE];
  }

  lemma HeaderSize(length: nat, checksum: byte)
    ensures |Header(length, checksum)| == HEADER_SIZE
  {
  }

  lemma HeaderWithLength(length: nat)
    ensures Patch(Header(0, 0), 4, ToLE(length, 2)) == Header(length, 0)
  {
    hide ToLE;
    var sign, tail := [0x50, 0x43, 0x4D, 0x50], [4] + [0] + HEADER_REST;
    Associate(sign + ToLE(0, 2), [4], [0], HEADER_REST);
    Associate(sign + ToLE(length, 2), [4], [0], HEADER_REST);
    Replace(sign, ToLE(0, 2), ToLE(length, 2), tail);
  }

  lemma HeaderWithChecksum(length: nat, x: byte)
    ensures |Header(length, 0)| == HEADER_SIZE && Header(length, 0)[7] == 0
    ensures Header(length, 0)[7 := x] == Header(length, x) && Header(length, x)[7] == x
  {
    hide ToLE;
    Replace([0x50, 0x43, 0x4D, 0x50] + ToLE(length, 2) + [4], [0], [x], HEADER_REST);
  }

  lemma Associate(a: seq<byte>, b: seq<byte>, c: seq<byte>, d: seq<byte>)
    ensures a + b + c + d == a + (b + c + d)
  {
  }

  lemma Replace(a: seq<byte>, b: seq<byte>, b': seq<byte>, c: seq<byte>)
    requires |b| == |b'|
    ensures Patch(a + b + c, |a|, b') == a + b' + c
    ensures |b| == 1 ==> (a + b + c)[|a| := b'[0]] == a + b' + c
  {
  }

  /** Length and checksum of the table, once its entries es are in place. */
  method FinishHeader(mem: array<byte>, ghost es: seq<Entry>, ghost end: nat, length: nat, checksum: int)
    requires end == MPF_SIZE + length <= mem.Length && HEADER_SIZE <= length
    requires mem[MPF_SIZE..MPF_SIZE + HEADER_SIZE] == Header(0, 0)
    requires mem[MPF_SIZE + HEADER_SIZE..end] == Flatten(es) && checksum % 256 == Sum(Flatten(es)) % 256
    modifies mem
    ensures mem[MPF_SIZE..MPF_SIZE + HEADER_SIZE] == Header(length, mem[MPF_SIZE + 7])
    ensures mem[MPF_SIZE + HEADER_SIZE..end] == Flatten(es) && Sum(mem[MPF_SIZE..end]) % 256 == 0
    ensures mem[..MPF_SIZE] == old(mem[..MPF_SIZE]) && mem[end..] == old(mem[end..])
  {
    hide Flatten, Sum, Header, ToLE;
    ghost var h, f := MPF_SIZE + HEADER_SIZE, Flatten(es);
    HeaderSize(0, 0);
    HeaderSize(length, 0);
    HeaderWithLength(length);
    HeaderWithChecksum(length, 0);
    ghost var m := mem[..];
    PatchWindow(m, MPF_SIZE, HEADER_SIZE, 4, ToLE(length, 2));
    StoreApart(m, MPF_SIZE, h, end, MPF_SIZE + 4, ToLE(length, 2));
    Store(mem, MPF_SIZE + 4, ToLE(length, 2));
    assert mem[MPF_SIZE..h] == mem[..][MPF_SIZE..h] == Header(length, 0);
    assert mem[h..end] == mem[..][h..end] == f;
    assert mem[..MPF_SIZE] == mem[..][..MPF_SIZE] && mem[end..] == mem[..][end..];
    var own := MpTableChecksum(mem, MPF_SIZE, HEADER_SIZE);
    var sum := checksum + own;
    var x: byte := (mem[MPF_SIZE + 7] as int - sum) % 256;
    HeaderWithChecksum(length, x);
    assert mem[MPF_SIZE + 7] == mem[MPF_SIZE..h][7] == 0;
    ZeroTable(Header(length, 0), f, checksum, own, x);
    mem[MPF_SIZE + 7] := x;
    assert mem[MPF_SIZE..h] == Header(length, 0)[7 := x];
    ArrayJoin(mem, MPF_SIZE, h, end);
  }

  lemma ArrayJoin(mem: array<byte>, i: nat, j: nat, k: nat)
    requires i <= j <= k <= mem.Length
    ensures mem[i..k] == mem[i..j] + mem[j..k]
  {
  }

  lemma StoreApart(m: seq<byte>, lo: nat, h: nat, end: nat, offset: nat, b: seq<byte>)
    requires lo <= offset && offset + |b| <= h <= end <= |m|
    ensures var r := Patch(m, offset, b);
            r[h..end] == m[h..end] && r[..lo] == m[..lo] && r[end..] == m[end..]
  {
  }

  /** The correction of the header byte covers header and entries. */
  lemma ZeroTable(header: seq<byte>, entries: seq<byte>, c: int, d: int, x: byte)
    requires |header| == HEADER_SIZE && header[7] == 0 && x == (0 - (c + d)) % 256
    requires c % 256 == Sum(entries) % 256 && d % 256 == Sum(header) % 256
    ensures Sum(header[7 := x] + entries) % 256 == 0
  {
    hide Sum;
    SumMod(c, Sum(entries), d, Sum(header));
    SumConcat(header, entries);
    ZeroedBy(header + entries, 7, c + d, x);
    assert (header + entries)[7 := x] == header[7 := x] + entries;
  }
}
