/** What a reader of the published SMBIOS data finds, byte by byte, at the offsets of sections 5.2.1 and
    7.1 of DMTF DSP0134. */
module SmbiosTheorems {
  import opened Bytes
  import opened StringLib
  import opened SmbiosTable
  import opened Smbios
  import opened SmbiosExtract

  import FwCfg

  /** Bytes of the entry point that publishing changes: its checksums and the address of the table, and
      with a new structure also maximal size, table length and count. */
  predicate Edited(k: nat, need: bool) {
    k == 4 || k == 21 || 24 <= k < 28 || (need && (8 <= k < 10 || 22 <= k < 24 || 28 <= k < 30))
  }

  /** Everything else in the entry point stays: anchors, versions, revisions. */
  lemma EntryKeeps(anchor: seq<byte>, q: nat, need: bool, k: nat)
    requires |anchor| == 31 && 16 <= anchor[5] <= 31 && q < WORD && k < 31 && !Edited(k, need)
    ensures |Entry(anchor, q, need)| == 31 && Entry(anchor, q, need)[k] == anchor[k]
  {
    hide Located, Extended, Summed, Field;
    var e1 := Located(anchor, q);
    LocatedFields(anchor, q);
    ExtendedFields(e1);
    var e2 := if need then Extended(e1) else e1;
    SummedIsZero(e2);
    LocatedKeeps(anchor, q, k);
    if need {
      ExtendedKeeps(e1, k);
    }
  }

  lemma SetFieldKeeps(e: seq<byte>, offset: nat, n: nat, v: nat, k: nat)
    requires offset + n <= |e| && k < |e| && !(offset <= k < offset + n)
    ensures SetField(e, offset, n, v)[k] == e[k]
  {
    hide ToLE;
  }

  /** Storing what is there already changes nothing. */
  lemma SetFieldSame(e: seq<byte>, offset: nat, n: nat, v: nat)
    requires offset + n <= |e| && v == Field(e, offset, n)
    ensures SetField(e, offset, n, v) == e
  {
    hide ToLE, FromLE;
    ToFromLE(e[offset..offset + n]);
    PatchSame(e, offset, n);
  }

  lemma LocatedKeeps(e: seq<byte>, q: nat, k: nat)
    requires |e| == ENTRY_SIZE && k < ENTRY_SIZE && !(24 <= k < 28)
    ensures Located(e, q)[k] == e[k]
  {
    hide SetField, Field;
    var e1 := SetField(e, 24, 4, q);
    SetFieldKeeps(e, 24, 4, q, k);
    FieldOther(e, 24, 4, q, 22, 2);
    SetFieldSame(e1, 22, 2, Field(e, 22, 2));
  }

  lemma ExtendedKeeps(e: seq<byte>, k: nat)
    requires |e| == ENTRY_SIZE && k < ENTRY_SIZE && !Edited(k, true)
    ensures Extended(e)[k] == e[k]
  {
    hide SetField, Field;
    var v1 := Field(e, COUNT, 2) + 1;
    var e1 := SetField(e, COUNT, 2, v1);
    SetFieldKeeps(e, COUNT, 2, v1, k);
    var v2 := (Field(e1, TABLE_ADDRESS, 4) - T0_LEN) % WORD;
    var e2 := SetField(e1, TABLE_ADDRESS, 4, v2);
    SetFieldKeeps(e1, TABLE_ADDRESS, 4, v2, k);
    var v3 := Field(e2, TABLE_LENGTH, 2) + T0_LEN;
    var e3 := SetField(e2, TABLE_LENGTH, 2, v3);
    SetFieldKeeps(e2, TABLE_LENGTH, 2, v3, k);
    SetFieldKeeps(e3, MAX_SIZE, 2, T0_LEN, k);
  }

  /** The published entry point, by its bytes: the address and count of the published structures, their
      length and largest size as far as 16 bits hold them, and three sums of zero. */
  lemma PublishedBytes(anchor: seq<byte>, list: seq<Structure>, q: nat)
    requires |anchor| == 31 && anchor[5] == 31 && AreStructures(list) && 46 <= q < WORD
    requires NumberAt(anchor, 22, 2) == |Encode(list)| && NumberAt(anchor, 28, 2) == |list| < 65535
    ensures var need := !HasStructure0(list);
            var all := if need then [BiosStructure()] + list else list;
            var e := Entry(anchor, q, need);
            && need == !MeetsType0(Encode(list)) && |BiosStructure().Bytes()| == 46
            && |e| == 31 && NumberAt(e, 24, 4) == (if need then q - 46 else q) && NumberAt(e, 28, 2) == |all|
            && (|Encode(all)| < 65536 ==> NumberAt(e, 22, 2) == |Encode(all)|)
            && (NumberAt(anchor, 8, 2) == MaxSize(list) ==> NumberAt(e, 8, 2) == MaxSize(all))
            && Sum(e[..16]) % 256 == 0 && Sum(e[16..]) % 256 == 0 && Sum(e) % 256 == 0
            && (forall k | 0 <= k < 31 && !Edited(k, need) :: e[k] == anchor[k])
  {
    hide Sum, FromLE, MeetsType0, HasStructure0, Entry, Type0, IsStructure, MaxSize, Encode, AreStructures, Edited;
    PublishedTable(anchor, list, q);
    Type0Length(BIOS_NAME, VERSION, BIOS_DATE);
    var need := !HasStructure0(list);
    EntryKeeps(anchor, q, need, 0) by { NotEdited(need); }
    forall k | 0 <= k < 31 && !Edited(k, need) ensures Entry(anchor, q, need)[k] == anchor[k] {
      EntryKeeps(anchor, q, need, k);
    }
  }

  lemma NotEdited(need: bool)
    ensures !Edited(0, need)
  {
  }

  lemma BiosStrings()
    ensures BIOS_NAME == Ascii("qboot") && VERSION == Ascii("0.1") && BIOS_DATE == Ascii("11/11/2019")
  {
  }

  lemma AnchorName()
    ensures ANCHOR_NAME == Ascii("etc/smbios/smbios-anchor") + [0]
  {
  }

  lemma TablesName()
    ensures TABLES_NAME == Ascii("etc/smbios/smbios-tables") + [0]
  {
  }

  /** When there is anything to publish: both files are there, the entry point has 31 bytes, and the
      length it announces at offset 22 is that of the table. */
  lemma ProvidedMeans(dir: FwCfg.Directory)
    ensures Provided(dir) <==>
              var a := FwCfg.FileId(dir, Ascii("etc/smbios/smbios-anchor") + [0]);
              var t := FwCfg.FileId(dir, Ascii("etc/smbios/smbios-tables") + [0]);
              && a != -1 && t != -1
              && |dir[a].data| == 31 && NumberAt(dir[a].data, 22, 2) == |dir[t].data|
  {
    hide FwCfg.FileId, FromLE, Ascii;
    AnchorName();
    TablesName();
  }

  /** The type 0 structure of the firmware: segment 0xe800, no characteristics but that they are not
      supported, targeted content distribution, release 0.0 and no embedded controller. */
  lemma BiosStructureReads()
    ensures var b := BiosStructure().Bytes();
            && |b| == 46 && b[0] == 0 && b[1] == 24 && NumberAt(b, 2, 2) == 0 && NumberAt(b, 6, 2) == 0xe800
            && b[9] == 0 && Stretch(b, 10, 8) == [8, 0, 0, 0, 0, 0, 0, 0] && Stretch(b, 18, 2) == [0, 4]
            && Stretch(b, 20, 4) == [0, 0, 0xFF, 0xFF]
            && b[4] > 0 && StringNumber(b[24..], b[4]) == Ascii("qboot")
            && b[5] > 0 && StringNumber(b[24..], b[5]) == Ascii("0.1")
            && b[8] > 0 && StringNumber(b[24..], b[8]) == Ascii("11/11/2019")
  {
    hide StringSet, StringNumber, Reference, FromLE, Stored, Packed;
    BiosStrings();
    Type0Length(BIOS_NAME, VERSION, BIOS_DATE);
    Type0Strings(BIOS_NAME, VERSION, BIOS_DATE);
    var s, b := BiosStructure(), BiosStructure().Bytes();
    assert b[24..] == s.strings && b[..24] == s.formatted;
    assert s.formatted[4] == b[..24][4] && s.formatted[5] == b[..24][5] && s.formatted[8] == b[..24][8];
    FormattedAreaReads(s, b);
  }

  lemma FormattedAreaReads(s: Structure, b: seq<byte>)
    requires |b| >= 24 && s.formatted == Type0Area(b[4], b[5], b[8]) && b[..24] == s.formatted
    ensures b[0] == 0 && b[1] == 24 && NumberAt(b, 2, 2) == 0 && NumberAt(b, 6, 2) == 0xe800 && b[9] == 0
    ensures Stretch(b, 10, 8) == [8, 0, 0, 0, 0, 0, 0, 0] && Stretch(b, 18, 2) == [0, 4]
    ensures Stretch(b, 20, 4) == [0, 0, 0xFF, 0xFF]
  {
    hide FromLE;
    forall i | 0 <= i < 24 ensures b[i] == s.formatted[i] {
      assert b[..24][i] == b[i];
    }
    assert b[2] == 0 && b[3] == 0 && b[6] == 0 && b[7] == 0xE8;
    TwoFrom(b[2..4]);
    TwoFrom(b[6..8]);
  }

  lemma TwoFrom(b: seq<byte>)
    requires |b| == 2
    ensures FromLE(b) == b[0] as nat + 256 * b[1] as nat
  {
    assert b[1..] == [b[1]] && [b[1]][1..] == [];
    assert FromLE([b[1]]) == b[1];
  }
}
