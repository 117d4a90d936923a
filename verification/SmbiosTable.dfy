/** The SMBIOS structure table as bytes (sections 6.1.2 and 6.1.3 of DMTF DSP0134): structures,
    string sets, and the walk that smbios_next performs. */
module SmbiosTable {
  import opened Bytes
  import FwCfg

  const HEADER_SIZE: nat := 4

  // ---------- the walk ----------

  /** The first position from p on that follows a double NUL, or the end of the table. */
  function SkipStrings(t: seq<byte>, p: nat): (q: nat)
    requires p >= 2
    ensures q >= p && (p <= |t| ==> q <= |t|)
    decreases |t| - p
  {
    if p < |t| && (t[p - 1] != 0 || t[p - 2] != 0) then SkipStrings(t, p + 1) else p
  }

  /** A position is handed out if a header and the formatted area it announces fit. */
  function Candidate(t: seq<byte>, q: nat): Option<nat> {
    if q >= |t| || q + HEADER_SIZE >= |t| || q + t[q + 1] >= |t| then None else Some(q)
  }

  /** Where smbios_next goes from the structure at hdr, or from nowhere. */
  function Next(t: seq<byte>, hdr: Option<nat>): (r: Option<nat>)
    ensures r.Some? ==> r.value + HEADER_SIZE < |t|
    ensures r.Some? && hdr.Some? ==> hdr.value < r.value
  {
    match hdr
    case None => Candidate(t, 0)
    case Some(h) =>
      if h + HEADER_SIZE > |t| then None
      else Candidate(t, SkipStrings(t, h + t[h + 1] + 2))
  }

  /** All positions that repeated calls hand out; the walk ends on any bytes. */
  function Walk(t: seq<byte>, hdr: Option<nat>): (starts: seq<nat>)
    decreases if hdr.Some? then |t| - hdr.value else |t| + 1
  {
    var r := Next(t, hdr);
    if r.None? then [] else [r.value] + Walk(t, r)
  }

  /** The scan stops at the first double NUL. */
  lemma {:induction false} SkipsTo(t: seq<byte>, p: nat, q: nat)
    requires p >= 2 && q < |t|
    ensures SkipStrings(t, p) == q <==>
              p <= q && t[q - 2] == 0 && t[q - 1] == 0 && forall k | p - 2 <= k < q - 2 :: t[k] != 0 || t[k + 1] != 0
    decreases |t| - p
  {
    if p < |t| {
      assert p < q ==> p - 2 < q - 2;
      if t[p - 1] != 0 || t[p - 2] != 0 {
        SkipsTo(t, p + 1, q);
      } else {
        assert t[p - 2] == 0 && t[p - 2 + 1] == 0;
      }
    }
  }

  /** On arbitrary bytes: a call goes on behind the first double NUL at or after the formatted area, exactly
      if more than a header and more than the announced length are left from there. */
  lemma NextIs(t: seq<byte>, h: nat, r: nat)
    ensures Next(t, Some(h)) == Some(r) <==>
              && h + 4 <= |t| && h + t[h + 1] + 2 <= r && r + 4 < |t| && r + t[r + 1] < |t|
              && t[r - 2] == 0 && t[r - 1] == 0
              && forall k | h + t[h + 1] <= k < r - 2 :: t[k] != 0 || t[k + 1] != 0
  {
    hide SkipStrings;
    if h + 4 <= |t| && r < |t| {
      SkipsTo(t, h + t[h + 1] + 2, r);
    }
  }

  // ---------- structures ----------

  datatype Structure = Structure(formatted: seq<byte>, strings: seq<byte>) {
    function Bytes(): seq<byte> {
      formatted + strings
    }

    function Type(): int {
      if formatted == [] then -1 else formatted[0]
    }
  }

  /** A string set ends with a double NUL and holds no other. */
  predicate IsStringSet(s: seq<byte>) {
    && |s| >= 2 && s[|s| - 2] == 0 && s[|s| - 1] == 0
    && forall k | 0 <= k < |s| - 2 :: s[k] != 0 || s[k + 1] != 0
  }

  predicate IsStructure(s: Structure) {
    && HEADER_SIZE <= |s.formatted| && s.formatted[1] == |s.formatted|
    && IsStringSet(s.strings)
  }

  predicate AreStructures(list: seq<Structure>) {
    forall s | s in list :: IsStructure(s)
  }

  function Encode(list: seq<Structure>): seq<byte> {
    if list == [] then [] else list[0].Bytes() + Encode(list[1..])
  }

  /** Where the structures start when the first one stands at position at. */
  function Starts(list: seq<Structure>, at: nat): seq<nat> {
    if list == [] then [] else [at] + Starts(list[1..], at + |list[0].Bytes()|)
  }

  /** Inside a string set the scan runs to its end. */
  lemma {:induction false} SkipsStringSet(t: seq<byte>, a: nat, s: seq<byte>, p: nat)
    requires IsStringSet(s) && a + |s| <= |t| && t[a..a + |s|] == s && a + 2 <= p <= a + |s|
    ensures SkipStrings(t, p) == a + |s|
    decreases a + |s| - p
  {
    var k := p - 2 - a;
    assert t[p - 2] == t[a..a + |s|][k] && t[p - 1] == t[a..a + |s|][k + 1];
    if p < a + |s| {
      assert s[k] != 0 || s[k + 1] != 0;
      SkipsStringSet(t, a, s, p + 1);
    } else {
      assert t[p - 1] == 0 && t[p - 2] == 0;
    }
  }

  /** After the structure s the walk is at the position right behind it. */
  lemma StepsOver(t: seq<byte>, h: nat, s: Structure)
    requires IsStructure(s) && h + |s.Bytes()| <= |t| && t[h..h + |s.Bytes()|] == s.Bytes()
    ensures Candidate(t, h) == Some(h)
    ensures Next(t, Some(h)) == Candidate(t, h + |s.Bytes()|)
    ensures TypeAt(t, h) == s.Type()
  {
    var n, a := |s.formatted|, h + |s.formatted|;
    var b := s.Bytes();
    assert t[h] == b[0] && t[h + 1] == b[1] == n;
    SliceOfSlice(t, h, |b|, n, |s.strings|);
    assert t[a..a + |s.strings|] == s.strings;
    SkipsStringSet(t, a, s.strings, a + 2);
  }

  /** The bytes t from position at on are the structures of list. */
  predicate HoldsFrom(t: seq<byte>, at: nat, list: seq<Structure>) {
    at + |Encode(list)| == |t| && t[at..] == Encode(list)
  }

  lemma FirstOfMany(t: seq<byte>, at: nat, list: seq<Structure>)
    requires AreStructures(list) && HoldsFrom(t, at, list) && list != []
    ensures var n := |list[0].Bytes()|;
            && IsStructure(list[0]) && AreStructures(list[1..])
            && at + n <= |t| && t[at..at + n] == list[0].Bytes()
            && HoldsFrom(t, at + n, list[1..])
  {
    hide IsStructure;
    var n := |list[0].Bytes()|;
    assert t[at..at + n] == t[at..][..n];
    assert t[at + n..] == t[at..][n..];
  }

  lemma {:induction false} WalkFrom(t: seq<byte>, before: nat, hdr: Option<nat>, list: seq<Structure>)
    requires AreStructures(list) && HoldsFrom(t, before, list)
    requires Next(t, hdr) == Candidate(t, before)
    ensures Walk(t, hdr) == Starts(list, before)
    decreases |list|
  {
    hide IsStructure, AreStructures, HoldsFrom, Next, Candidate, Structure.Bytes, Walk, Starts;
    if list == [] {
      NoneLeft(t, before, hdr);
    } else {
      var n := |list[0].Bytes()|;
      FirstOfMany(t, before, list);
      StepsOver(t, before, list[0]);
      WalkFrom(t, before + n, Some(before), list[1..]);
      WalkStep(t, hdr, before);
      StartsStep(list, before);
    }
  }

  lemma WalkStep(t: seq<byte>, hdr: Option<nat>, at: nat)
    requires Next(t, hdr) == Some(at)
    ensures Walk(t, hdr) == [at] + Walk(t, Some(at))
  {
    hide Next;
  }

  lemma StartsStep(list: seq<Structure>, at: nat)
    requires list != []
    ensures Starts(list, at) == [at] + Starts(list[1..], at + |list[0].Bytes()|)
  {
  }

  lemma NoneLeft(t: seq<byte>, at: nat, hdr: Option<nat>)
    requires HoldsFrom(t, at, []) && Next(t, hdr) == Candidate(t, at)
    ensures Walk(t, hdr) == Starts([], at)
  {
    hide Next;
  }

  /** Walking the encoding of any list of well-formed structures finds exactly their starts. */
  lemma WalkInvertsEncode(list: seq<Structure>)
    requires AreStructures(list)
    ensures Walk(Encode(list), None) == Starts(list, 0)
  {
    WalkFrom(Encode(list), 0, None, list);
  }

  /** Whether a walk meets a structure of type 0. */
  predicate MeetsType0(t: seq<byte>) {
    HasType0(t, Walk(t, None))
  }

  predicate HasType0(t: seq<byte>, starts: seq<nat>) {
    exists k :: 0 <= k < |starts| && TypeAt(t, starts[k]) == 0
  }

  lemma HasType0Cons(t: seq<byte>, h: nat, rest: seq<nat>)
    ensures HasType0(t, [h] + rest) <==> TypeAt(t, h) == 0 || HasType0(t, rest)
  {
    hide TypeAt;
    var w := [h] + rest;
    assert w[0] == h;
    assert forall k | 0 <= k < |rest| :: w[k + 1] == rest[k];
    assert forall k | 1 <= k < |w| :: w[k] == rest[k - 1];
  }

  /** The same, structure by structure. */
  predicate Scan(t: seq<byte>, hdr: Option<nat>)
    decreases if hdr.Some? then |t| - hdr.value else |t| + 1
  {
    var r := Next(t, hdr);
    r.Some? && (TypeAt(t, r.value) == 0 || Scan(t, r))
  }

  lemma {:induction false} ScanIsWalk(t: seq<byte>, hdr: Option<nat>)
    ensures Scan(t, hdr) <==> HasType0(t, Walk(t, hdr))
    decreases if hdr.Some? then |t| - hdr.value else |t| + 1
  {
    hide Next;
    NextInside(t, hdr);
    var r := Next(t, hdr);
    if r.Some? {
      ScanIsWalk(t, r);
      HasType0Cons(t, r.value, Walk(t, r));
    }
  }

  lemma NextInside(t: seq<byte>, hdr: Option<nat>)
    ensures var r := Next(t, hdr);
            r.Some? ==>
              && r.value + HEADER_SIZE < |t| && r.value + t[r.value + 1] < |t|
              && (hdr.Some? ==> hdr.value + 2 <= r.value)
  {
  }

  function TypeAt(t: seq<byte>, h: nat): int {
    if h < |t| then t[h] else -1
  }

  predicate HasStructure0(list: seq<Structure>) {
    exists s :: s in list && s.Type() == 0
  }

  lemma {:induction false} TypesAtStarts(t: seq<byte>, before: nat, list: seq<Structure>)
    requires AreStructures(list) && HoldsFrom(t, before, list)
    ensures HasType0(t, Starts(list, before)) <==> HasStructure0(list)
    decreases |list|
  {
    if list != [] {
      hide IsStructure, AreStructures, HoldsFrom, Next, Candidate, TypeAt, HasType0;
      FirstOfMany(t, before, list);
      StepsOver(t, before, list[0]);
      var n := before + |list[0].Bytes()|;
      TypesAtStarts(t, n, list[1..]);
      HasType0Cons(t, before, Starts(list[1..], n));
      assert list == [list[0]] + list[1..];
    }
  }

  lemma MeetsType0Iff(list: seq<Structure>)
    requires AreStructures(list)
    ensures MeetsType0(Encode(list)) <==> HasStructure0(list)
  {
    WalkInvertsEncode(list);
    TypesAtStarts(Encode(list), 0, list);
  }

  // ---------- string sets ----------

  /** The non-empty strings among vs, each with its NUL. */
  function Packed(vs: seq<seq<byte>>): seq<byte> {
    if vs == [] then []
    else (if vs[0] == [] then [] else vs[0] + [0]) + Packed(vs[1..])
  }

  /** The string set of vs: without any string it is just the double NUL. */
  function StringSet(vs: seq<seq<byte>>): seq<byte> {
    if Packed(vs) == [] then [0, 0] else Packed(vs) + [0]
  }

  /** The n-th string of a string set, counted from 1; a number beyond the last one gives the
      empty string. */
  function StringNumber(s: seq<byte>, n: nat): seq<byte>
    requires n >= 1
  {
    var first := FwCfg.CString(s);
    if n == 1 then first
    else if first == [] || |first| == |s| then []
    else StringNumber(s[|first| + 1..], n - 1)
  }

  /** How many of vs are stored. */
  function Stored(vs: seq<seq<byte>>): nat {
    if vs == [] then 0 else (if vs[0] == [] then 0 else 1) + Stored(vs[1..])
  }

  /** The number a structure uses for the last of vs: 0 if it is empty. */
  function Reference(vs: seq<seq<byte>>): nat
    requires vs != []
  {
    if vs[|vs| - 1] == [] then 0 else Stored(vs)
  }

  predicate AreCStrings(vs: seq<seq<byte>>) {
    forall v | v in vs :: 0 !in v
  }

  lemma {:induction false} PackedShape(vs: seq<seq<byte>>)
    requires AreCStrings(vs)
    ensures Packed(vs) != [] ==> Packed(vs)[0] != 0 && Packed(vs)[|Packed(vs)| - 1] == 0
    ensures forall k | 0 <= k < |Packed(vs)| - 1 :: Packed(vs)[k] != 0 || Packed(vs)[k + 1] != 0
  {
    if vs != [] {
      PackedShape(vs[1..]);
      var v, rest := vs[0], Packed(vs[1..]);
      if v != [] {
        assert Packed(vs) == v + [0] + rest;
        assert v[0] in v;
        forall k | 0 <= k < |Packed(vs)| - 1 ensures Packed(vs)[k] != 0 || Packed(vs)[k + 1] != 0 {
          if k < |v| {
            assert v[k] in v;
          } else if k > |v| {
            assert Packed(vs)[k] == rest[k - |v| - 1] && Packed(vs)[k + 1] == rest[k - |v|];
          }
        }
      }
    }
  }

  /** Whatever the strings are, their string set is well formed. */
  lemma StringSetIsWellFormed(vs: seq<seq<byte>>)
    requires AreCStrings(vs)
    ensures IsStringSet(StringSet(vs))
  {
    PackedShape(vs);
    var p, s := Packed(vs), StringSet(vs);
    if p != [] {
      forall k | 0 <= k < |s| - 2 ensures s[k] != 0 || s[k + 1] != 0 {
        assert s[k] == p[k] && s[k + 1] == p[k + 1];
      }
    }
  }

  lemma FirstString(v: seq<byte>, rest: seq<byte>)
    requires 0 !in v
    ensures FwCfg.CString(v + [0] + rest) == v
    ensures (v + [0] + rest)[|v| + 1..] == rest
  {
    assert (v + [0] + rest)[..|v|] == v;
    FwCfg.CStringIs(v + [0] + rest, |v|);
  }

  lemma StoredHas(vs: seq<seq<byte>>, i: nat)
    requires i < |vs| && vs[i] != []
    ensures Stored(vs[..i + 1]) >= 1
    ensures vs[..i + 1] != [] && Reference(vs[..i + 1]) == Stored(vs[..i + 1])
  {
    var prefix := vs[..i + 1];
    assert prefix[i] == vs[i];
    if i > 0 {
      assert prefix[1..] == vs[1..][..i];
      StoredHas(vs[1..], i - 1);
    }
  }

  /** Looking up the number of any string in the packed strings gives the string back. */
  lemma {:induction false} LookupFinds(vs: seq<seq<byte>>, i: nat, tail: seq<byte>)
    requires AreCStrings(vs) && i < |vs| && vs[i] != []
    ensures Stored(vs[..i + 1]) >= 1
    ensures StringNumber(Packed(vs) + tail, Stored(vs[..i + 1])) == vs[i]
  {
    hide StringNumber, Stored, Packed;
    StoredHas(vs, i);
    var v, rest := vs[0], Packed(vs[1..]) + tail;
    assert v in vs;
    StoredStep(vs, i);
    if i > 0 {
      RestAreCStrings(vs);
      LookupFinds(vs[1..], i - 1, tail);
    }
    PackedStep(vs);
    if v == [] {
      assert Packed(vs) + tail == rest;
    } else {
      assert Packed(vs) + tail == v + [0] + rest;
      NumberStep(v, rest, Stored(vs[..i + 1]));
    }
  }

  lemma RestAreCStrings(vs: seq<seq<byte>>)
    requires AreCStrings(vs) && vs != []
    ensures AreCStrings(vs[1..])
  {
  }

  lemma StoredStep(vs: seq<seq<byte>>, i: nat)
    requires i < |vs|
    ensures Stored(vs[..i + 1]) == (if vs[0] == [] then 0 else 1) + if i == 0 then 0 else Stored(vs[1..][..i])
  {
    assert vs[..i + 1][1..] == vs[1..][..i];
  }

  lemma PackedStep(vs: seq<seq<byte>>)
    requires vs != []
    ensures Packed(vs) == (if vs[0] == [] then [] else vs[0] + [0]) + Packed(vs[1..])
  {
  }

  lemma NumberStep(v: seq<byte>, rest: seq<byte>, n: nat)
    requires 0 !in v && v != [] && n >= 1
    ensures StringNumber(v + [0] + rest, n) == if n == 1 then v else StringNumber(rest, n - 1)
  {
    hide FwCfg.CString;
    FirstString(v, rest);
  }

  lemma StringsFound(vs: seq<seq<byte>>, i: nat)
    requires AreCStrings(vs) && i < |vs| && vs[i] != []
    ensures Reference(vs[..i + 1]) >= 1
    ensures StringNumber(StringSet(vs), Reference(vs[..i + 1])) == vs[i]
  {
    StoredHas(vs, i);
    LookupFinds(vs, i, [0]);
    PackedHas(vs, i);
  }

  lemma {:induction false} PackedHas(vs: seq<seq<byte>>, i: nat)
    requires i < |vs| && vs[i] != []
    ensures Packed(vs) != []
  {
    if i > 0 { PackedHas(vs[1..], i - 1); }
  }
}
