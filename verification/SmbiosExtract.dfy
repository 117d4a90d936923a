/** extract_smbios: the firmware-provided structure table and entry point are copied to the
    F-segment, a type 0 structure is put in front if there is none, and both checksums of the
    entry point are corrected (section 5.2.1 of DMTF DSP0134). */
module SmbiosExtract {
  import opened Bytes
  import opened StringLib
  import opened Malloc
  import opened FwCfg
  import opened SmbiosTable
  import opened Smbios

  // ---------- the new structure ----------

  lemma Type0IsStructure(vendor: seq<byte>, version: seq<byte>, date: seq<byte>)
    requires 0 !in vendor && 0 !in version && 0 !in date
    ensures IsStructure(Type0(vendor, version, date)) && Type0(vendor, version, date).Type() == 0
  {
    hide StringSet, IsStringSet, Reference;
    StringSetIsWellFormed([vendor, version, date]);
  }

  /** For non-empty strings the size is what the caller computes beforehand; each empty string
      takes its NUL away, except that there are always two at the end. */
  lemma Type0Length(vendor: seq<byte>, version: seq<byte>, date: seq<byte>)
    ensures vendor != [] && version != [] && date != [] ==>
              |Type0(vendor, version, date).Bytes()| == TYPE0_SIZE + |vendor| + |version| + |date| + 4
    ensures vendor == [] && version == [] && date == [] ==>
              |Type0(vendor, version, date).Bytes()| == TYPE0_SIZE + 2
  {
    PackedThree(vendor, version, date);
    hide Packed, Stored;
  }

  lemma NameOf(vs: seq<seq<byte>>, i: nat)
    requires AreCStrings(vs) && i < |vs|
    ensures vs[..i + 1] != []
    ensures if vs[i] == [] then Reference(vs[..i + 1]) == 0
            else Reference(vs[..i + 1]) > 0 && StringNumber(StringSet(vs), Reference(vs[..i + 1])) == vs[i]
  {
    hide StringSet, StringNumber;
    assert vs[..i + 1][i] == vs[i];
    if vs[i] != [] {
      StringsFound(vs, i);
    }
  }

  /** Each string field of the new structure names the string it was given, or none if empty. */
  lemma Type0Strings(vendor: seq<byte>, version: seq<byte>, date: seq<byte>)
    requires 0 !in vendor && 0 !in version && 0 !in date
    ensures var s := Type0(vendor, version, date);
            && (if vendor == [] then s.formatted[4] == 0
                else s.formatted[4] > 0 && StringNumber(s.strings, s.formatted[4]) == vendor)
            && (if version == [] then s.formatted[5] == 0
                else s.formatted[5] > 0 && StringNumber(s.strings, s.formatted[5]) == version)
            && (if date == [] then s.formatted[8] == 0
                else s.formatted[8] > 0 && StringNumber(s.strings, s.formatted[8]) == date)
  {
    hide StringSet, StringNumber, Reference, Stored, Type0, AreCStrings;
    var vs := [vendor, version, date];
    Type0Parts(vendor, version, date);
    ThreeCStrings(vendor, version, date);
    NameOf(vs, 0);
    NameOf(vs, 1);
    NameOf(vs, 2);
    assert vs[..1] == [vendor];
    assert vs[..2] == [vendor, version];
    assert vs[..3] == vs;
  }

  lemma Type0Parts(vendor: seq<byte>, version: seq<byte>, date: seq<byte>)
    ensures var s := Type0(vendor, version, date);
            && |s.formatted| == TYPE0_SIZE && s.strings == StringSet([vendor, version, date])
            && s.formatted[4] == Reference([vendor]) && s.formatted[5] == Reference([vendor, version])
            && s.formatted[8] == Reference([vendor, version, date])
  {
    hide StringSet, Reference, Stored;
  }

  lemma ThreeCStrings(vendor: seq<byte>, version: seq<byte>, date: seq<byte>)
    requires 0 !in vendor && 0 !in version && 0 !in date
    ensures AreCStrings([vendor, version, date])
  {
  }

  const T0_LEN: nat := TYPE0_SIZE + |BIOS_NAME| + |VERSION| + |BIOS_DATE| + 4

  function BiosStructure(): Structure {
    Type0(BIOS_NAME, VERSION, BIOS_DATE)
  }

  // ---------- the entry point ----------

  /** The n-byte number at an offset. */
  function Field(e: seq<byte>, offset: nat, n: nat): nat {
    if offset + n <= |e| then FromLE(e[offset..offset + n]) else 0
  }

  function SetField(e: seq<byte>, offset: nat, n: nat, v: nat): (r: seq<byte>)
    requires offset + n <= |e|
    ensures |r| == |e|
  {
    Patch(e, offset, ToLE(v, n))
  }

  const CHECKSUM: nat := 4
  const LENGTH: nat := 5
  const MAX_SIZE: nat := 8
  const INTERMEDIATE: nat := 16
  const INTERMEDIATE_CHECKSUM: nat := 21
  const TABLE_LENGTH: nat := 22
  const TABLE_ADDRESS: nat := 24
  const COUNT: nat := 28

  /** The entry point when the table of the given length stands at address q. */
  function Located(e: seq<byte>, q: nat): (r: seq<byte>)
    requires |e| == ENTRY_SIZE
    ensures |r| == ENTRY_SIZE
  {
    SetField(SetField(e, TABLE_ADDRESS, 4, q), TABLE_LENGTH, 2, Field(e, TABLE_LENGTH, 2))
  }

  /** The entry point when a type 0 structure has been put in front of the table. */
  function Extended(e: seq<byte>): (r: seq<byte>)
    requires |e| == ENTRY_SIZE
    ensures |r| == ENTRY_SIZE
  {
    var e1 := SetField(e, COUNT, 2, Field(e, COUNT, 2) + 1);
    var e2 := SetField(e1, TABLE_ADDRESS, 4, (Field(e1, TABLE_ADDRESS, 4) - T0_LEN) % WORD);
    var e3 := SetField(e2, TABLE_LENGTH, 2, Field(e2, TABLE_LENGTH, 2) + T0_LEN);
    if T0_LEN > Field(e3, MAX_SIZE, 2) then SetField(e3, MAX_SIZE, 2, T0_LEN) else e3
  }

  function Summed(e: seq<byte>): (r: seq<byte>)
    requires |e| == ENTRY_SIZE && INTERMEDIATE <= e[LENGTH] <= ENTRY_SIZE
    ensures |r| == ENTRY_SIZE
  {
    var e1 := Checksummed(e, CHECKSUM, 0, INTERMEDIATE);
    Checksummed(e1, INTERMEDIATE_CHECKSUM, INTERMEDIATE, e1[LENGTH] - INTERMEDIATE)
  }

  lemma FieldSame(e: seq<byte>, offset: nat, n: nat, v: nat)
    requires offset + n <= |e|
    ensures Field(SetField(e, offset, n, v), offset, n) == Cut(v, n)
  {
    assert SetField(e, offset, n, v)[offset..offset + n] == ToLE(v, n);
    FromToLE(v, n);
  }

  lemma FieldOther(e: seq<byte>, offset: nat, n: nat, v: nat, o: nat, m: nat)
    requires offset + n <= |e| && (offset + n <= o || o + m <= offset)
    ensures Field(SetField(e, offset, n, v), o, m) == Field(e, o, m)
  {
    hide ToLE, FromLE;
    if o + m <= |e| {
      PatchElsewhere(e, o, m, offset, ToLE(v, n));
    }
  }

  lemma FieldBound(e: seq<byte>, o: nat, m: nat)
    ensures Field(e, o, m) < Pow256(m) && Cut(Field(e, o, m), m) == Field(e, o, m)
  {
    if o + m <= |e| {
      FromLEBound(e[o..o + m]);
    } else {
      SmallMod(0, Pow256(m));
    }
  }

  /** Locating the table changes its address and nothing else. */
  lemma LocatedFields(e: seq<byte>, q: nat)
    requires |e| == ENTRY_SIZE && q < WORD
    ensures var r := Located(e, q);
            && Field(r, TABLE_ADDRESS, 4) == q
            && Field(r, TABLE_LENGTH, 2) == Field(e, TABLE_LENGTH, 2)
            && Field(r, MAX_SIZE, 2) == Field(e, MAX_SIZE, 2) && Field(r, COUNT, 2) == Field(e, COUNT, 2)
    ensures Located(e, q)[LENGTH] == e[LENGTH]
  {
    hide SetField, Field, Pow256;
    var n := Field(e, TABLE_LENGTH, 2);
    var e1 := SetField(e, TABLE_ADDRESS, 4, q);
    FourBytes();
    FieldBound(e, TABLE_LENGTH, 2);
    FieldSame(e, TABLE_ADDRESS, 4, q);
    SmallMod(q, WORD);
    FieldSame(e1, TABLE_LENGTH, 2, n);
    FieldOther(e1, TABLE_LENGTH, 2, n, TABLE_ADDRESS, 4);
    FieldOther(e, TABLE_ADDRESS, 4, q, MAX_SIZE, 2);
    FieldOther(e1, TABLE_LENGTH, 2, n, MAX_SIZE, 2);
    FieldOther(e, TABLE_ADDRESS, 4, q, COUNT, 2);
    FieldOther(e1, TABLE_LENGTH, 2, n, COUNT, 2);
    ByteKept(e, TABLE_ADDRESS, 4, q, LENGTH);
    ByteKept(e1, TABLE_LENGTH, 2, n, LENGTH);
  }

  lemma ByteKept(e: seq<byte>, offset: nat, n: nat, v: nat, k: nat)
    requires offset + n <= |e| && k < |e| && !(offset <= k < offset + n)
    ensures SetField(e, offset, n, v)[k] == e[k]
  {
    hide ToLE;
    PatchAt(e, offset, ToLE(v, n));
  }

  /** Extending counts the new structure, and keeps the largest size up to date. */
  lemma ExtendedFields(e: seq<byte>)
    requires |e| == ENTRY_SIZE
    ensures var r := Extended(e);
            && Field(r, TABLE_ADDRESS, 4) == (Field(e, TABLE_ADDRESS, 4) - T0_LEN) % WORD
            && Field(r, TABLE_LENGTH, 2) == (Field(e, TABLE_LENGTH, 2) + T0_LEN) % 65536
            && Field(r, COUNT, 2) == (Field(e, COUNT, 2) + 1) % 65536
            && Field(r, MAX_SIZE, 2) == if T0_LEN > Field(e, MAX_SIZE, 2) then T0_LEN else Field(e, MAX_SIZE, 2)
    ensures Extended(e)[LENGTH] == e[LENGTH]
  {
    hide SetField, Field, Pow256;
    FourBytes();
    var c := Field(e, COUNT, 2) + 1;
    var e1 := SetField(e, COUNT, 2, c);
    var a := (Field(e1, TABLE_ADDRESS, 4) - T0_LEN) % WORD;
    var e2 := SetField(e1, TABLE_ADDRESS, 4, a);
    var l := Field(e2, TABLE_LENGTH, 2) + T0_LEN;
    var e3 := SetField(e2, TABLE_LENGTH, 2, l);
    var r := Extended(e);
    FieldSame(e, COUNT, 2, c);
    FieldOther(e, COUNT, 2, c, TABLE_ADDRESS, 4);
    FieldOther(e, COUNT, 2, c, TABLE_LENGTH, 2);
    FieldOther(e, COUNT, 2, c, MAX_SIZE, 2);
    FieldSame(e1, TABLE_ADDRESS, 4, a);
    SmallMod(a, WORD);
    FieldOther(e1, TABLE_ADDRESS, 4, a, COUNT, 2);
    FieldOther(e1, TABLE_ADDRESS, 4, a, TABLE_LENGTH, 2);
    FieldOther(e1, TABLE_ADDRESS, 4, a, MAX_SIZE, 2);
    FieldSame(e2, TABLE_LENGTH, 2, l);
    FieldOther(e2, TABLE_LENGTH, 2, l, COUNT, 2);
    FieldOther(e2, TABLE_LENGTH, 2, l, TABLE_ADDRESS, 4);
    FieldOther(e2, TABLE_LENGTH, 2, l, MAX_SIZE, 2);
    FieldSame(e3, MAX_SIZE, 2, T0_LEN);
    SmallMod(T0_LEN, 65536);
    FieldOther(e3, MAX_SIZE, 2, T0_LEN, COUNT, 2);
    FieldOther(e3, MAX_SIZE, 2, T0_LEN, TABLE_ADDRESS, 4);
    FieldOther(e3, MAX_SIZE, 2, T0_LEN, TABLE_LENGTH, 2);
    ByteKept(e, COUNT, 2, c, LENGTH);
    ByteKept(e1, TABLE_ADDRESS, 4, a, LENGTH);
    ByteKept(e2, TABLE_LENGTH, 2, l, LENGTH);
    ByteKept(e3, MAX_SIZE, 2, T0_LEN, LENGTH);
  }

  /** Both areas sum to zero; the second needs its checksum byte to lie inside the announced
      length, or the area to sum to zero anyway. */
  lemma SummedIsZero(e: seq<byte>)
    requires |e| == ENTRY_SIZE && INTERMEDIATE <= e[LENGTH] <= ENTRY_SIZE
    ensures Sum(Summed(e)[..INTERMEDIATE]) % 256 == 0
    ensures Summed(e)[LENGTH] == e[LENGTH]
    ensures Sum(Summed(e)[INTERMEDIATE..e[LENGTH]]) % 256 == 0 <==>
              e[LENGTH] > INTERMEDIATE_CHECKSUM || Sum(e[INTERMEDIATE..e[LENGTH]]) % 256 == 0
    ensures e[LENGTH] == ENTRY_SIZE ==> Sum(Summed(e)) % 256 == 0
    ensures forall k | 0 <= k < ENTRY_SIZE && k != CHECKSUM && k != INTERMEDIATE_CHECKSUM :: Summed(e)[k] == e[k]
  {
    hide Sum;
    var e1, r := Checksummed(e, CHECKSUM, 0, INTERMEDIATE), Summed(e);
    var n := e[LENGTH] - INTERMEDIATE;
    ChecksumZeroes(e, CHECKSUM, 0, INTERMEDIATE);
    ChecksumZeroes(e1, INTERMEDIATE_CHECKSUM, INTERMEDIATE, n);
    assert e1[0..INTERMEDIATE] == r[..INTERMEDIATE];
    assert e1[INTERMEDIATE..e[LENGTH]] == e[INTERMEDIATE..e[LENGTH]];
    if e[LENGTH] == ENTRY_SIZE {
      assert r == r[..INTERMEDIATE] + r[INTERMEDIATE..ENTRY_SIZE];
      SumConcat(r[..INTERMEDIATE], r[INTERMEDIATE..ENTRY_SIZE]);
    }
  }

  /** The entry point that extract_smbios leaves. */
  function Entry(e: seq<byte>, q: nat, need: bool): seq<byte>
    requires |e| == ENTRY_SIZE && INTERMEDIATE <= e[LENGTH] <= ENTRY_SIZE && q < WORD
  {
    LocatedFields(e, q);
    ExtendedFields(Located(e, q));
    Summed(if need then Extended(Located(e, q)) else Located(e, q))
  }

  // ---------- extract_smbios ----------

  /** "etc/smbios/smbios-anchor" and "etc/smbios/smbios-tables", with their NULs. */
  const ANCHOR_NAME: seq<byte> :=
    [0x65, 0x74, 0x63, 0x2F, 0x73, 0x6D, 0x62, 0x69, 0x6F, 0x73, 0x2F, 0x73, 0x6D, 0x62, 0x69, 0x6F, 0x73,
     0x2D, 0x61, 0x6E, 0x63, 0x68, 0x6F, 0x72, 0]
  const TABLES_NAME: seq<byte> :=
    [0x65, 0x74, 0x63, 0x2F, 0x73, 0x6D, 0x62, 0x69, 0x6F, 0x73, 0x2F, 0x73, 0x6D, 0x62, 0x69, 0x6F, 0x73,
     0x2D, 0x74, 0x61, 0x62, 0x6C, 0x65, 0x73, 0]

  /** The firmware provides both files, in the sizes that belong together. */
  predicate Provided(dir: Directory) {
    var a, t := FileId(dir, ANCHOR_NAME), FileId(dir, TABLES_NAME);
    && a != -1 && |dir[a].data| == ENTRY_SIZE
    && t != -1 && |dir[t].data| == Field(dir[a].data, TABLE_LENGTH, 2)
  }

  /** Writing a field of the entry point at e; the table, elsewhere, keeps its bytes. */
  method StoreField(mem: array<byte>, e: nat, offset: nat, n: nat, v: nat, ghost lo: nat, ghost len: nat)
    requires e + ENTRY_SIZE <= lo && lo + len <= mem.Length && offset + n <= ENTRY_SIZE
    modifies mem
    ensures mem[e..e + ENTRY_SIZE] == SetField(old(mem[e..e + ENTRY_SIZE]), offset, n, v)
    ensures mem[lo..lo + len] == old(mem[lo..lo + len])
    ensures forall i | 0 <= i < mem.Length && !(e <= i < e + ENTRY_SIZE) :: mem[i] == old(mem[i])
  {
    hide ToLE, Patch;
    ghost var m := mem[..];
    PatchWindow(m, e, ENTRY_SIZE, offset, ToLE(v, n));
    PatchElsewhere(m, lo, len, e + offset, ToLE(v, n));
    PatchAt(m, e + offset, ToLE(v, n));
    Store(mem, e + offset, ToLE(v, n));
    WindowIs(mem, e, ENTRY_SIZE);
    WindowIs(mem, lo, len);
  }

  lemma WindowIs(mem: array<byte>, lo: nat, n: nat)
    requires lo + n <= mem.Length
    ensures mem[..][lo..lo + n] == mem[lo..lo + n]
  {
  }

  method LoadField(mem: array<byte>, e: nat, offset: nat, n: nat) returns (v: nat)
    requires e + ENTRY_SIZE <= mem.Length && offset + n <= ENTRY_SIZE
    ensures v == Field(mem[e..e + ENTRY_SIZE], offset, n)
  {
    SliceOfSlice(mem[..], e, ENTRY_SIZE, offset, n);
    WindowIs(mem, e, ENTRY_SIZE);
    WindowIs(mem, e + offset, n);
    v := FromLE(mem[e + offset..e + offset + n]);
  }

  /** One byte of the entry point reduced by the sum of a range of it. */
  method CorrectByte(mem: array<byte>, e: nat, offset: nat, start: nat, len: nat, ghost lo: nat, ghost n: nat)
    requires e + ENTRY_SIZE <= lo && lo + n <= mem.Length && offset < ENTRY_SIZE && start + len <= ENTRY_SIZE
    modifies mem
    ensures mem[e..e + ENTRY_SIZE] == Checksummed(old(mem[e..e + ENTRY_SIZE]), offset, start, len)
    ensures mem[lo..lo + n] == old(mem[lo..lo + n])
    ensures forall i | 0 <= i < mem.Length && !(e <= i < e + ENTRY_SIZE) :: mem[i] == old(mem[i])
  {
    hide Sum;
    ghost var b := mem[e..e + ENTRY_SIZE];
    SliceOfSlice(mem[..], e, ENTRY_SIZE, start, len);
    WindowIs(mem, e, ENTRY_SIZE);
    WindowIs(mem, e + start, len);
    var sum := Csum8(mem, e + start, len);
    assert b[offset] == mem[e + offset];
    ByteMinusSum(b[offset], Sum(b[start..start + len]), sum);
    mem[e + offset] := (mem[e + offset] as int - sum) % 256;
  }

  lemma ByteMinusSum(x: byte, s: nat, sum: byte)
    requires sum == s % 256
    ensures (x as int - sum) % 256 == (x - s) % 256
  {
  }

  /** The structure in front of the table; the entry point, elsewhere, keeps its bytes. */
  method PutType0(mem: array<byte>, e: nat, q: nat, ghost n: nat)
    requires e + ENTRY_SIZE + T0_LEN <= q && q + n <= mem.Length
    modifies mem
    ensures mem[e..e + ENTRY_SIZE] == old(mem[e..e + ENTRY_SIZE])
    ensures mem[q - T0_LEN..q + n] == BiosStructure().Bytes() + old(mem[q..q + n])
    ensures forall i | 0 <= i < mem.Length && !(q - T0_LEN <= i < q) :: mem[i] == old(mem[i])
  {
    hide Type0, Structure.Bytes, Patch, CString;
    ghost var m, b := mem[..], BiosStructure().Bytes();
    Type0Length(BIOS_NAME, VERSION, BIOS_DATE);
    TerminatedIs(BIOS_NAME);
    TerminatedIs(VERSION);
    TerminatedIs(BIOS_DATE);
    SmbiosNewType0(mem, q - T0_LEN, Some(BIOS_NAME + [0]), Some(VERSION + [0]), Some(BIOS_DATE + [0]));
    PatchElsewhere(m, e, ENTRY_SIZE, q - T0_LEN, b);
    WindowIs(mem, e, ENTRY_SIZE);
    PatchInFront(m, q, n, b);
    WindowIs(mem, q - T0_LEN, T0_LEN + n);
    OutsidePatch(m, q - T0_LEN, b);
    assert forall i | 0 <= i < mem.Length :: mem[i] == mem[..][i] && m[i] == old(mem[i]);
  }

  lemma OutsidePatch(m: seq<byte>, p: nat, b: seq<byte>)
    requires p + |b| <= |m|
    ensures forall i | 0 <= i < |m| && !(p <= i < p + |b|) :: Patch(m, p, b)[i] == m[i]
  {
  }

  lemma PatchInFront(m: seq<byte>, q: nat, n: nat, b: seq<byte>)
    requires |b| <= q && q + n <= |m|
    ensures Patch(m, q - |b|, b)[q - |b|..q + n] == b + m[q..q + n]
  {
  }

  /** The entry point fields that count the new structure. */
  method CountType0(mem: array<byte>, e: nat, ghost lo: nat, ghost len: nat)
    requires e + ENTRY_SIZE <= lo && lo + len <= mem.Length < WORD
    modifies mem
    ensures mem[e..e + ENTRY_SIZE] == Extended(old(mem[e..e + ENTRY_SIZE]))
    ensures mem[lo..lo + len] == old(mem[lo..lo + len])
    ensures forall i | 0 <= i < mem.Length && !(e <= i < e + ENTRY_SIZE) :: mem[i] == old(mem[i])
  {
    hide SetField, Field;
    var count := LoadField(mem, e, COUNT, 2);
    StoreField(mem, e, COUNT, 2, count + 1, lo, len);
    var address := LoadField(mem, e, TABLE_ADDRESS, 4);
    StoreField(mem, e, TABLE_ADDRESS, 4, (address - T0_LEN) % WORD, lo, len);
    var length := LoadField(mem, e, TABLE_LENGTH, 2);
    StoreField(mem, e, TABLE_LENGTH, 2, length + T0_LEN, lo, len);
    var max := LoadField(mem, e, MAX_SIZE, 2);
    if T0_LEN > max {
      StoreField(mem, e, MAX_SIZE, 2, T0_LEN, lo, len);
    }
  }

  /** Both checksum corrections. */
  method CorrectSums(mem: array<byte>, e: nat, ghost lo: nat, ghost len: nat)
    requires e + ENTRY_SIZE <= lo && lo + len <= mem.Length
    requires INTERMEDIATE <= mem[e..e + ENTRY_SIZE][LENGTH] <= ENTRY_SIZE
    modifies mem
    ensures mem[e..e + ENTRY_SIZE] == Summed(old(mem[e..e + ENTRY_SIZE]))
    ensures mem[lo..lo + len] == old(mem[lo..lo + len])
    ensures forall i | 0 <= i < mem.Length && !(e <= i < e + ENTRY_SIZE) :: mem[i] == old(mem[i])
  {
    ghost var e0 := mem[e..e + ENTRY_SIZE];
    CorrectByte(mem, e, CHECKSUM, 0, INTERMEDIATE, lo, len);
    assert mem[e + LENGTH] == mem[e..e + ENTRY_SIZE][LENGTH] == e0[LENGTH];
    CorrectByte(mem, e, INTERMEDIATE_CHECKSUM, INTERMEDIATE, mem[e + LENGTH] as nat - INTERMEDIATE, lo, len);
  }

  lemma TableInWindow(mem: array<byte>, lo: nat, n: nat)
    requires lo + T0_LEN + n <= mem.Length
    ensures mem[lo + T0_LEN..lo + T0_LEN + n] == mem[lo..lo + T0_LEN + n][T0_LEN..]
  {
    SliceOfSlice(mem[..], lo, T0_LEN + n, T0_LEN, n);
    WindowIs(mem, lo, T0_LEN + n);
    WindowIs(mem, lo + T0_LEN, n);
  }

  /** The edits of extract_smbios once both files are in memory: the entry point at e, the table
      of length n at q with T0_LEN free bytes in front. */
  method Publish(mem: array<byte>, e: nat, q: nat, n: nat)
    requires e + ENTRY_SIZE + T0_LEN <= q && q + n <= mem.Length < WORD
    requires n == Field(mem[e..e + ENTRY_SIZE], TABLE_LENGTH, 2)
    requires INTERMEDIATE <= mem[e..e + ENTRY_SIZE][LENGTH] <= ENTRY_SIZE
    modifies mem
    ensures var need := !MeetsType0(old(mem[q..q + n]));
            && mem[e..e + ENTRY_SIZE] == Entry(old(mem[e..e + ENTRY_SIZE]), q, need)
            && mem[q..q + n] == old(mem[q..q + n])
            && (need ==> mem[q - T0_LEN..q + n] == BiosStructure().Bytes() + old(mem[q..q + n]))
    ensures forall i | 0 <= i < mem.Length && !(e <= i < e + ENTRY_SIZE) && !(q - T0_LEN <= i < q) ::
              mem[i] == old(mem[i])
  {
    hide MeetsType0, SetField, Field, Summed, Extended, BiosStructure;
    ghost var e0, t0 := mem[e..e + ENTRY_SIZE], mem[q..q + n];
    LocatedFields(e0, q);
    ExtendedFields(Located(e0, q));
    ghost var lo, len := q - T0_LEN, T0_LEN + n;
    TableInWindow(mem, lo, n);
    StoreField(mem, e, TABLE_ADDRESS, 4, q, lo, len);
    StoreField(mem, e, TABLE_LENGTH, 2, n, lo, len);
    TableInWindow(mem, lo, n);
    var need := NeedsType0(mem, q, n);
    if need {
      PutType0(mem, e, q, n);
      CountType0(mem, e, lo, len);
    }
    TableInWindow(mem, lo, n);
    CorrectSums(mem, e, lo, len);
    TableInWindow(mem, lo, n);
  }

  /** A 16-aligned block of the F-segment, with the data of a file behind some free bytes. */
  method LoadFile(heap: Heap, mem: array<byte>, data: seq<byte>, front: nat) returns (p: nat)
    requires heap.Valid() && mem.Length < WORD && heap.fsegBase + 15 + front + |data| <= mem.Length
    modifies heap, mem
    ensures heap.Valid()
    ensures p % 16 == 0 && old(heap.fsegBase) <= p && heap.fsegBase == p + front + |data| <= mem.Length
    ensures heap.fsegBase <= old(heap.fsegBase) + 15 + front + |data|
    ensures mem[p + front..p + front + |data|] == data
    ensures forall i | 0 <= i < mem.Length && !(p + front <= i < p + front + |data|) :: mem[i] == old(mem[i])
  {
    hide RoundDown, RoundUp, Patch;
    SixteenIsPowerOfTwo();
    MultipleAbove(heap.fsegBase, 16);
    p := heap.MallocFsegAlign(front + |data|, 16);
    ghost var m := mem[..];
    WholeStream(data);
    PatchedIn(m, p + front, data);
    PatchAt(m, p + front, data);
    ReadStream(data, 0, mem, p + front, |data|);
    WindowIs(mem, p + front, |data|);
    assert forall i | 0 <= i < mem.Length :: mem[i] == mem[..][i] && m[i] == old(mem[i]);
  }

  /** The second half of extract_smbios: the table behind room for a new structure, then the edits. */
  method LoadAndPublish(heap: Heap, mem: array<byte>, e: nat, ghost anchor: seq<byte>, table: seq<byte>)
    returns (q: nat)
    requires heap.Valid() && mem.Length < WORD && heap.fsegBase + 15 + T0_LEN + |table| <= mem.Length
    requires e + ENTRY_SIZE <= heap.fsegBase && mem[e..e + ENTRY_SIZE] == anchor
    requires |table| == Field(anchor, TABLE_LENGTH, 2) && INTERMEDIATE <= anchor[LENGTH] <= ENTRY_SIZE
    modifies heap, mem
    ensures heap.Valid() && e + ENTRY_SIZE + T0_LEN <= q && q + |table| <= mem.Length
    ensures mem[e..e + ENTRY_SIZE] == Entry(anchor, q, !MeetsType0(table))
    ensures mem[q..q + |table|] == table
    ensures !MeetsType0(table) ==> mem[q - T0_LEN..q + |table|] == BiosStructure().Bytes() + table
    ensures old(heap.fsegBase) <= q - T0_LEN && heap.fsegBase == q + |table|
    ensures forall i | 0 <= i < mem.Length && !(e <= i < e + ENTRY_SIZE) && !(q - T0_LEN <= i < q + |table|) ::
              mem[i] == old(mem[i])
  {
    hide MeetsType0, Entry, Field, BiosStructure;
    q := LoadFile(heap, mem, table, T0_LEN);
    q := q + T0_LEN;
    assert mem[e..e + ENTRY_SIZE] == anchor;
    Publish(mem, e, q, |table|);
  }

  /** extract_smbios: the addresses of the published entry point and of the table; false if the
      firmware interface does not provide both files. */
  method ExtractSmbios(dir: Directory, heap: Heap, mem: array<byte>) returns (ok: bool, e: nat, q: nat)
    requires heap.Valid() && mem.Length < WORD
    requires heap.fsegBase + 15 + ENTRY_SIZE + 15 + T0_LEN + FileSize(dir, FileId(dir, TABLES_NAME)) <= mem.Length
    requires Provided(dir) ==> INTERMEDIATE <= dir[FileId(dir, ANCHOR_NAME)].data[LENGTH] <= ENTRY_SIZE
    modifies heap, mem
    ensures heap.Valid()
    ensures ok <==> Provided(dir)
    ensures ok ==>
              var anchor, table := dir[FileId(dir, ANCHOR_NAME)].data, dir[FileId(dir, TABLES_NAME)].data;
              && e % 16 == 0 && e + ENTRY_SIZE + T0_LEN <= q && q + |table| <= mem.Length
              && mem[e..e + ENTRY_SIZE] == Entry(anchor, q, !MeetsType0(table))
              && mem[q..q + |table|] == table
              && (!MeetsType0(table) ==> mem[q - T0_LEN..q + |table|] == BiosStructure().Bytes() + table)
              && forall i | 0 <= i < mem.Length && !(e <= i < e + ENTRY_SIZE) && !(q - T0_LEN <= i < q + |table|) ::
                   mem[i] == old(mem[i])
    ensures forall i | 0 <= i < mem.Length && !(old(heap.fsegBase) <= i < heap.fsegBase) :: mem[i] == old(mem[i])
  {
    hide FileId, MeetsType0, Entry, Field, BiosStructure, Heap.Valid, Structure.Bytes;
    e, q := 0, 0;
    var id := FwCfgFileId(dir, ANCHOR_NAME);
    if id == -1 || ENTRY_SIZE != FileSize(dir, id) {
      return false, 0, 0;
    }
    ghost var anchor := dir[id].data;
    e := LoadFile(heap, mem, dir[id].data, 0);
    var n := LoadField(mem, e, TABLE_LENGTH, 2);
    id := FwCfgFileId(dir, TABLES_NAME);
    if id == -1 || n != FileSize(dir, id) {
      return false, 0, 0;
    }
    q := LoadAndPublish(heap, mem, e, anchor, dir[id].data);
    ok := true;
  }

  lemma PatchedIn(m: seq<byte>, i: nat, b: seq<byte>)
    requires i + |b| <= |m|
    ensures Patch(m, i, b)[i..i + |b|] == b
  {
  }

  lemma EncodeOne(s: Structure)
    ensures Encode([s]) == s.Bytes()
  {
    assert [s][1..] == [];
    assert Encode([]) == [];
  }

  // ---------- what is published ----------

  lemma {:induction false} EncodeConcat(a: seq<Structure>, b: seq<Structure>)
    ensures Encode(a + b) == Encode(a) + Encode(b)
  {
    if a == [] {
      assert a + b == b;
    } else {
      assert (a + b)[1..] == a[1..] + b;
      EncodeConcat(a[1..], b);
    }
  }

  /** For every list of structures that the firmware interface provides: a type 0 structure is
      added exactly when the list has none; the entry point names address and length of the
      published table, in which the walk finds the structures and no others, and counts
      them; and both of its areas sum to zero. The length has 16 bits, so it is right
      exactly when the table, with the new structure, still fits into them. */
  lemma PublishedTable(anchor: seq<byte>, list: seq<Structure>, q: nat)
    requires |anchor| == ENTRY_SIZE && anchor[LENGTH] == ENTRY_SIZE
    requires AreStructures(list) && T0_LEN <= q < WORD
    requires Field(anchor, TABLE_LENGTH, 2) == |Encode(list)|
    requires Field(anchor, COUNT, 2) == |list| < 65535
    ensures var need := !MeetsType0(Encode(list));
            var all := if need then [BiosStructure()] + list else list;
            var e := Entry(anchor, q, need);
            && (need <==> !HasStructure0(list))
            && HasStructure0(all)
            && Walk(Encode(all), None) == Starts(all, 0)
            && Field(e, TABLE_ADDRESS, 4) == (if need then q - T0_LEN else q)
            && (Field(e, TABLE_LENGTH, 2) == |Encode(all)| <==> |Encode(all)| < 65536)
            && Field(e, COUNT, 2) == |all|
            && (Field(anchor, MAX_SIZE, 2) == MaxSize(list) ==> Field(e, MAX_SIZE, 2) == MaxSize(all))
            && Sum(e[..INTERMEDIATE]) % 256 == 0 && Sum(e[INTERMEDIATE..]) % 256 == 0 && Sum(e) % 256 == 0
  {
    hide Sum, Field, MeetsType0, HasStructure0, Walk, Starts, Summed, Located, Extended, Type0, IsStructure, MaxSize;
    MeetsType0Iff(list);
    var need := !MeetsType0(Encode(list));
    Type0IsStructure(BIOS_NAME, VERSION, BIOS_DATE);
    Type0Length(BIOS_NAME, VERSION, BIOS_DATE);
    var all := if need then [BiosStructure()] + list else list;
    NewStructureFirst(list);
    MaxSizeCons(BiosStructure(), list);
    WalkInvertsEncode(all);
    EncodeConcat([BiosStructure()], list);
    EncodeOne(BiosStructure());
    var e1 := Located(anchor, q);
    LocatedFields(anchor, q);
    ExtendedFields(e1);
    var e2 := if need then Extended(e1) else e1;
    SummedIsZero(e2);
    SummedFields(e2);
    var e := Entry(anchor, q, need);
    assert e[INTERMEDIATE..ENTRY_SIZE] == e[INTERMEDIATE..];
    FieldBound(anchor, TABLE_LENGTH, 2);
    FourBytes();
  }

  /** The size of the largest structure, with its strings. */
  function MaxSize(list: seq<Structure>): nat {
    if list == [] then 0
    else
      var rest := MaxSize(list[1..]);
      if |list[0].Bytes()| > rest then |list[0].Bytes()| else rest
  }

  lemma MaxSizeCons(s: Structure, list: seq<Structure>)
    ensures MaxSize([s] + list) == if |s.Bytes()| > MaxSize(list) then |s.Bytes()| else MaxSize(list)
  {
    assert ([s] + list)[1..] == list;
  }

  lemma NewStructureFirst(list: seq<Structure>)
    ensures HasStructure0([BiosStructure()] + list)
  {
    assert BiosStructure() in [BiosStructure()] + list;
  }

  /** The checksum bytes lie outside the fields. */
  lemma SummedFields(e: seq<byte>)
    requires |e| == ENTRY_SIZE && INTERMEDIATE <= e[LENGTH] <= ENTRY_SIZE
    ensures Field(Summed(e), TABLE_ADDRESS, 4) == Field(e, TABLE_ADDRESS, 4)
    ensures Field(Summed(e), TABLE_LENGTH, 2) == Field(e, TABLE_LENGTH, 2)
    ensures Field(Summed(e), COUNT, 2) == Field(e, COUNT, 2)
    ensures Field(Summed(e), MAX_SIZE, 2) == Field(e, MAX_SIZE, 2)
  {
    hide FromLE;
    SummedIsZero(e);
    hide Summed, Sum;
    var r := Summed(e);
    assert r[TABLE_ADDRESS..TABLE_ADDRESS + 4] == e[TABLE_ADDRESS..TABLE_ADDRESS + 4];
    assert r[TABLE_LENGTH..TABLE_LENGTH + 2] == e[TABLE_LENGTH..TABLE_LENGTH + 2];
    assert r[COUNT..COUNT + 2] == e[COUNT..COUNT + 2];
    assert r[MAX_SIZE..MAX_SIZE + 2] == e[MAX_SIZE..MAX_SIZE + 2];
  }
}
