/** smbios.c: the structure walk and the type 0 writer over memory, and the publication of the
    firmware-provided tables. */
module Smbios {
  import opened Bytes
  import opened StringLib
  import opened FwCfg
  import opened SmbiosTable

  const TYPE0_SIZE: nat := 24
  const ENTRY_SIZE: nat := 31

  /** "qboot", "0.1" and "11/11/2019". */
  const BIOS_NAME: seq<byte> := [0x71, 0x62, 0x6F, 0x6F, 0x74]
  const VERSION: seq<byte> := [0x30, 0x2E, 0x31]
  const BIOS_DATE: seq<byte> := [0x31, 0x31, 0x2F, 0x31, 0x31, 0x2F, 0x32, 0x30, 0x31, 0x39]

  // ---------- smbios_next ----------

  function Relative(start: nat, p: Option<nat>): Option<int> {
    match p
    case None => None
    case Some(a) => Some(a - start)
  }

  /** A byte of the table, which lies at [start, end). */
  function Inside(mem: array<byte>, p: int, ghost start: nat, ghost end: nat): byte
    requires start <= p < end <= mem.Length
    reads mem
  {
    mem[p]
  }

  /** The loop of smbios_next over the strings of a structure. */
  method SkipToEnd(mem: array<byte>, start: nat, end: nat, from: nat) returns (ptr: nat)
    requires start <= end <= mem.Length && start + 2 <= from
    ensures start <= ptr && ptr - start == SkipStrings(mem[start..end], from - start)
  {
    ghost var t := mem[start..end];
    ptr := from;
    while ptr < end && (Inside(mem, ptr - 1, start, end) != 0 || Inside(mem, ptr - 2, start, end) != 0)
      invariant start + 2 <= ptr
      invariant SkipStrings(t, from - start) == SkipStrings(t, ptr - start)
      decreases end - ptr
    {
      assert t[ptr - start - 1] == mem[ptr - 1] && t[ptr - start - 2] == mem[ptr - 2];
      ptr := ptr + 1;
    }
    assert ptr < end ==> t[ptr - start - 1] == mem[ptr - 1] && t[ptr - start - 2] == mem[ptr - 2];
  }

  /** The pointer arithmetic of smbios_next. All its reads are inside the table, whatever the bytes. */
  method SmbiosNext(mem: array<byte>, start: nat, len: nat, hdr: Option<nat>) returns (r: Option<nat>)
    requires start + len <= mem.Length && (hdr.Some? ==> start <= hdr.value)
    ensures r.Some? ==> start <= r.value
    ensures Relative(start, r) == Next(mem[start..start + len], if hdr.Some? then Some(hdr.value - start) else None)
  {
    hide SkipStrings;
    ghost var t := mem[start..start + len];
    var end := start + len;
    var ptr := start;
    if hdr.Some? {
      ptr := hdr.value;
      if ptr + HEADER_SIZE > end {
        return None;
      }
      ptr := ptr + Inside(mem, ptr + 1, start, end) as nat + 2;
      ptr := SkipToEnd(mem, start, end, ptr);
    }
    if ptr >= end || ptr + HEADER_SIZE >= end || ptr + Inside(mem, ptr + 1, start, end) as nat >= end {
      return None;
    }
    return Some(ptr);
  }

  /** The scan of extract_smbios: is a structure of type 0 missing? */
  method NeedsType0(mem: array<byte>, start: nat, len: nat) returns (need: bool)
    requires start + len <= mem.Length
    ensures need <==> !MeetsType0(mem[start..start + len])
  {
    hide Next, Walk;
    ghost var t := mem[start..start + len];
    ScanIsWalk(t, None);
    var hdr := SmbiosNext(mem, start, len, None);
    NextInside(t, None);
    while hdr.Some?
      invariant hdr.Some? ==> start <= hdr.value < start + len
      invariant Scan(t, None) <==> hdr.Some? && (TypeAt(t, hdr.value - start) == 0 || Scan(t, Some(hdr.value - start)))
      decreases if hdr.Some? then start + len - hdr.value else 0
    {
      assert mem[hdr.value] == t[hdr.value - start];
      if mem[hdr.value] == 0 {
        return false;
      }
      NextInside(t, Some(hdr.value - start));
      hdr := SmbiosNext(mem, start, len, hdr);
    }
    return true;
  }

  // ---------- smbios_new_type_0 ----------

  /** The formatted area, given the numbers of the three strings. */
  function Type0Area(vendor: byte, version: byte, date: byte): seq<byte> {
    [0, 24, 0, 0, vendor, version, 0x00, 0xE8, date, 0,
     0x08, 0, 0, 0, 0, 0, 0, 0, 0, 4, 0, 0, 0xFF, 0xFF]
  }

  function Type0(vendor: seq<byte>, version: seq<byte>, date: seq<byte>): Structure {
    PackedThree(vendor, version, date);
    Structure(Type0Area(Reference([vendor]), Reference([vendor, version]), Reference([vendor, version, date])),
              StringSet([vendor, version, date]))
  }

  function PackedOne(v: seq<byte>): seq<byte> {
    if v == [] then [] else v + [0]
  }

  /** The memory after a string has been stored at end and its number put into a field. */
  function WithString(m: seq<byte>, field: nat, end: nat, number: byte, value: seq<byte>): (r: seq<byte>)
    requires field < end && end + |PackedOne(value)| <= |m|
    ensures |r| == |m|
  {
    Patch(m, end, PackedOne(value))[field := if value == [] then 0 else number]
  }

  /** The characters of a string argument, which may be missing. */
  function Characters(value: Option<seq<byte>>): (s: seq<byte>)
    ensures 0 !in s
  {
    if value.Some? then CString(value.value) else []
  }

  predicate IsArgument(value: Option<seq<byte>>) {
    value.Some? ==> 0 in value.value
  }

  /** set_str_field_or_skip: store a string and put its number into the field; an empty or missing
      one is not stored and gets number 0. */
  method SetStrField(mem: array<byte>, field: nat, end: nat, index: byte, value: Option<seq<byte>>)
    returns (end': nat, index': nat)
    requires IsArgument(value)
    requires index < 255 && field < end && end + |PackedOne(Characters(value))| <= mem.Length
    modifies mem
    ensures end' == end + |PackedOne(Characters(value))|
    ensures index' == (if Characters(value) == [] then index else index + 1)
    ensures mem[..] == WithString(old(mem[..]), field, end, index + 1, Characters(value))
  {
    hide CString;
    var size := 0;
    if value.Some? {
      var len := StrLen(value.value);
      size := len + 1;
    }
    if size > 1 {
      EndsLater(value.value, size - 1);
      assert value.value[..size] == Characters(value) + [0];
      Store(mem, end, value.value[..size]);
      end' := end + size;
      index' := index + 1;
      mem[field] := index';
    } else {
      mem[field] := 0;
      end', index' := end, index;
    }
  }

  lemma StringInArea(m: seq<byte>, field: nat, at: nat, limit: nat, end: nat, number: byte, value: seq<byte>)
    requires field < at <= end && end + |PackedOne(value)| <= limit <= |m|
    ensures var m' := WithString(m, field, end, number, value);
            m'[at..end + |PackedOne(value)|] == m[at..end] + PackedOne(value) && m'[limit..] == m[limit..]
  {
  }

  lemma StringInField(m: seq<byte>, field: nat, at: nat, end: nat, number: byte, value: seq<byte>)
    requires field < at <= end && end + |PackedOne(value)| <= |m|
    ensures var m' := WithString(m, field, end, number, value);
            && m'[..field] == m[..field] && m'[field + 1..at] == m[field + 1..at]
            && m'[field] == (if value == [] then 0 else number)
  {
  }

  lemma PackedThree(a: seq<byte>, b: seq<byte>, c: seq<byte>)
    ensures Packed([a, b, c]) == PackedOne(a) + PackedOne(b) + PackedOne(c)
    ensures Stored([a]) == if a == [] then 0 else 1
    ensures Stored([a, b]) == Stored([a]) + if b == [] then 0 else 1
    ensures Stored([a, b, c]) == Stored([a, b]) + if c == [] then 0 else 1
  {
    hide PackedOne, Packed, Stored;
    NothingPacked();
    PackedCons(c, []);
    PackedCons(b, [c]);
    PackedCons(a, [b, c]);
    PackedCons(b, []);
    PackedCons(a, [b]);
    PackedCons(a, []);
    assert [a] + [] == [a] && [b] + [] == [b] && [c] + [] == [c];
    assert [a] + [b] == [a, b] && [b] + [c] == [b, c] && [a] + [b, c] == [a, b, c];
  }

  lemma NothingPacked()
    ensures Packed([]) == [] && Stored([]) == 0
  {
  }

  lemma PackedCons(v: seq<byte>, vs: seq<seq<byte>>)
    ensures Packed([v] + vs) == PackedOne(v) + Packed(vs)
    ensures Stored([v] + vs) == (if v == [] then 0 else 1) + Stored(vs)
  {
    assert ([v] + vs)[1..] == vs;
  }

  /** The part of the formatted area that does not depend on the strings: constant stores. */
  method WriteFixed(mem: array<byte>, start: nat)
    requires start + TYPE0_SIZE <= mem.Length
    modifies mem
    ensures mem[start..start + TYPE0_SIZE] ==
            Type0Area(old(mem[start + 4]), old(mem[start + 5]), old(mem[start + 8]))
    ensures mem[..start] == old(mem[..start])
    ensures mem[start + TYPE0_SIZE..] == old(mem[start + TYPE0_SIZE..])
  {
    var area := Type0Area(0, 0, 0);
    forall i | 0 <= i < TYPE0_SIZE && i != 4 && i != 5 && i != 8 {
      mem[start + i] := area[i];
    }
  }

  /** The memory after the three fields, their strings and the closing NULs have been written. */
  function WithStrings(m: seq<byte>, start: nat, vendor: seq<byte>, version: seq<byte>, date: seq<byte>): (r: seq<byte>)
    requires start + |Type0(vendor, version, date).Bytes()| <= |m|
    ensures |r| == |m|
  {
    PackedThree(vendor, version, date);
    var at := start + TYPE0_SIZE;
    var e1 := at + |PackedOne(vendor)|;
    var e2 := e1 + |PackedOne(version)|;
    var e3 := e2 + |PackedOne(date)|;
    var m1 := WithString(m, start + 4, at, 1, vendor);
    var m2 := WithString(m1, start + 5, e1, Stored([vendor]) + 1, version);
    var m3 := WithString(m2, start + 8, e2, Stored([vendor, version]) + 1, date);
    Patch(m3, e3, if Stored([vendor, version, date]) == 0 then [0, 0] else [0])
  }

  lemma SetAndReferences(a: seq<byte>, b: seq<byte>, c: seq<byte>)
    ensures StringSet([a, b, c]) == Packed([a, b, c]) + if Stored([a, b, c]) == 0 then [0, 0] else [0]
    ensures Reference([a]) == if a == [] then 0 else Stored([a])
    ensures Reference([a, b]) == if b == [] then 0 else Stored([a, b])
    ensures Reference([a, b, c]) == if c == [] then 0 else Stored([a, b, c])
  {
    PackedThree(a, b, c);
    hide Packed, Stored;
  }

  lemma Tail(m: seq<byte>, at: nat, end: nat, tail: seq<byte>)
    requires at <= end && end + |tail| <= |m|
    ensures Patch(m, end, tail)[at..end + |tail|] == m[at..end] + tail
    ensures Patch(m, end, tail)[..at] == m[..at]
    ensures Patch(m, end, tail)[end + |tail|..] == m[end + |tail|..]
  {
  }

  lemma StringsWritten(m: seq<byte>, start: nat, vendor: seq<byte>, version: seq<byte>, date: seq<byte>)
    requires start + |Type0(vendor, version, date).Bytes()| <= |m|
    ensures var m' := WithStrings(m, start, vendor, version, date);
            var at, s := start + TYPE0_SIZE, StringSet([vendor, version, date]);
            m'[at..at + |s|] == s && m'[at + |s|..] == m[at + |s|..]
  {
    PackedThree(vendor, version, date);
    SetAndReferences(vendor, version, date);
    hide Packed, Stored, PackedOne, Patch, WithString, StringSet, Reference;
    var at := start + TYPE0_SIZE;
    var limit := at + |StringSet([vendor, version, date])|;
    var e1 := at + |PackedOne(vendor)|;
    var e2 := e1 + |PackedOne(version)|;
    var e3 := e2 + |PackedOne(date)|;
    var m1 := WithString(m, start + 4, at, 1, vendor);
    var m2 := WithString(m1, start + 5, e1, Stored([vendor]) + 1, version);
    var m3 := WithString(m2, start + 8, e2, Stored([vendor, version]) + 1, date);
    var tail := if Stored([vendor, version, date]) == 0 then [0, 0] else [0];
    StringInArea(m, start + 4, at, limit, at, 1, vendor);
    StringInArea(m1, start + 5, at, limit, e1, Stored([vendor]) + 1, version);
    StringInArea(m2, start + 8, at, limit, e2, Stored([vendor, version]) + 1, date);
    Tail(m3, at, e3, tail);
    JoinAreas(m[at..at], m1[at..e1], m2[at..e2], m3[at..e3], PackedOne(vendor), PackedOne(version), PackedOne(date));
  }

  lemma JoinAreas(a0: seq<byte>, a1: seq<byte>, a2: seq<byte>, a3: seq<byte>, p: seq<byte>, q: seq<byte>, r: seq<byte>)
    requires a0 == [] && a1 == a0 + p && a2 == a1 + q && a3 == a2 + r
    ensures a3 == p + q + r
  {
  }

  lemma FieldsWritten(m: seq<byte>, start: nat, vendor: seq<byte>, version: seq<byte>, date: seq<byte>)
    requires start + |Type0(vendor, version, date).Bytes()| <= |m|
    ensures var m' := WithStrings(m, start, vendor, version, date);
            && m'[..start] == m[..start]
            && m'[start + 4] == Reference([vendor]) && m'[start + 5] == Reference([vendor, version])
            && m'[start + 8] == Reference([vendor, version, date])
  {
    PackedThree(vendor, version, date);
    SetAndReferences(vendor, version, date);
    hide Packed, Stored, PackedOne, Patch, WithString, StringSet, Reference;
    var at := start + TYPE0_SIZE;
    var limit := at + |StringSet([vendor, version, date])|;
    var e1 := at + |PackedOne(vendor)|;
    var e2 := e1 + |PackedOne(version)|;
    var e3 := e2 + |PackedOne(date)|;
    var m1 := WithString(m, start + 4, at, 1, vendor);
    var m2 := WithString(m1, start + 5, e1, Stored([vendor]) + 1, version);
    var m3 := WithString(m2, start + 8, e2, Stored([vendor, version]) + 1, date);
    var tail := if Stored([vendor, version, date]) == 0 then [0, 0] else [0];
    StringInField(m, start + 4, at, at, 1, vendor);
    StringInField(m1, start + 5, at, e1, Stored([vendor]) + 1, version);
    StringInField(m2, start + 8, at, e2, Stored([vendor, version]) + 1, date);
    Tail(m3, at, e3, tail);
    FieldsKept(m, m1, m2, m3, Patch(m3, e3, tail), start, at);
  }

  /** Later writes leave the earlier fields alone. */
  lemma FieldsKept(m: seq<byte>, m1: seq<byte>, m2: seq<byte>, m3: seq<byte>, m4: seq<byte>, start: nat, at: nat)
    requires |m| == |m1| == |m2| == |m3| == |m4| && at == start + TYPE0_SIZE <= |m|
    requires m1[..start + 4] == m[..start + 4] && m2[..start + 5] == m1[..start + 5]
    requires m3[..start + 8] == m2[..start + 8] && m4[..at] == m3[..at]
    ensures m4[..start] == m[..start]
    ensures m4[start + 4] == m1[start + 4] && m4[start + 5] == m2[start + 5] && m4[start + 8] == m3[start + 8]
  {
    assert m4[start + 4] == m4[..at][start + 4] && m4[start + 5] == m4[..at][start + 5]
           && m4[start + 8] == m4[..at][start + 8];
    assert m3[start + 4] == m3[..start + 8][start + 4] && m3[start + 5] == m3[..start + 8][start + 5];
    assert m2[start + 4] == m2[..start + 5][start + 4];
    assert m4[..start] == m4[..at][..start] && m3[..start] == m3[..start + 8][..start];
    assert m2[..start] == m2[..start + 5][..start] && m1[..start] == m1[..start + 4][..start];
    assert m[..start] == m[..start + 4][..start] && m3[..at][..start] == m3[..start];
    assert m2[..start + 8][..start] == m2[..start] && m1[..start + 5][..start] == m1[..start];
  }

  /** The three string fields, the strings and what ends them. */
  method WriteStrings(mem: array<byte>, start: nat, vendor: Option<seq<byte>>, version: Option<seq<byte>>,
                      date: Option<seq<byte>>)
    requires IsArgument(vendor) && IsArgument(version) && IsArgument(date)
    requires start + |Type0(Characters(vendor), Characters(version), Characters(date)).Bytes()| <= mem.Length
    modifies mem
    ensures mem[..] == WithStrings(old(mem[..]), start, Characters(vendor), Characters(version), Characters(date))
  {
    PackedThree(Characters(vendor), Characters(version), Characters(date));
    hide Packed, Stored, WithString, Patch, Characters;
    var end, index := start + TYPE0_SIZE, 0;
    end, index := SetStrField(mem, start + 4, end, index, vendor);
    end, index := SetStrField(mem, start + 5, end, index, version);
    end, index := SetStrField(mem, start + 8, end, index, date);
    if index == 0 {
      Store(mem, end, [0, 0]);
    } else {
      Store(mem, end, [0]);
    }
  }

  lemma ThreeParts(m: seq<byte>, m': seq<byte>, i: nat, k: nat, s: Structure)
    requires i + |s.Bytes()| <= |m| == |m'| && k == i + |s.formatted|
    requires m'[..i] == m[..i] && m'[i..k] == s.formatted && m'[k..k + |s.strings|] == s.strings
    requires m'[k + |s.strings|..] == m[k + |s.strings|..]
    ensures m' == Patch(m, i, s.Bytes())
  {
    var e := k + |s.strings|;
    assert m' == m'[..i] + m'[i..k] + m'[k..e] + m'[e..];
  }

  method SmbiosNewType0(mem: array<byte>, start: nat, vendor: Option<seq<byte>>, version: Option<seq<byte>>,
                        date: Option<seq<byte>>)
    requires IsArgument(vendor) && IsArgument(version) && IsArgument(date)
    requires start + |Type0(Characters(vendor), Characters(version), Characters(date)).Bytes()| <= mem.Length
    modifies mem
    ensures mem[..] == Patch(old(mem[..]), start,
                             Type0(Characters(vendor), Characters(version), Characters(date)).Bytes())
  {
    hide StringSet, Reference, Patch, WithStrings, Characters;
    ghost var s := Type0(Characters(vendor), Characters(version), Characters(date));
    ghost var at, end := start + TYPE0_SIZE, start + TYPE0_SIZE + |s.strings|;
    WriteStrings(mem, start, vendor, version, date);
    ghost var between := mem[..];
    StringsWritten(old(mem[..]), start, Characters(vendor), Characters(version), Characters(date));
    FieldsWritten(old(mem[..]), start, Characters(vendor), Characters(version), Characters(date));
    assert between[at..end] == s.strings;
    WriteFixed(mem, start);
    assert mem[at..] == between[at..];
    assert mem[at..end] == mem[at..][..end - at] && between[at..end] == between[at..][..end - at];
    assert mem[end..] == mem[at..][end - at..] && between[end..] == between[at..][end - at..];
    ThreeParts(old(mem[..]), mem[..], start, at, s);
  }
}
