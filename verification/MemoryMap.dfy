/** The E820 memory map that extract_e820 in main.c builds out of the firmware-provided one. */
module MemoryMap {
  import opened Bytes

  const E820_RAM: nat := 1
  const E820_RESERVED: nat := 2
  const E820_NVS: nat := 4
  const MB: nat := 1024 * 1024
  const DWORD: nat := 0x1_0000_0000_0000_0000
  const MMCONFIG_BASE: nat := 0xb000_0000
  const MMCONFIG_SIZE: nat := 256 * 1024 * 1024

  datatype Entry = Entry(addr: nat, size: nat, kind: nat) {
    predicate Covers(a: nat) {
      addr <= a < addr + size
    }

    predicate Apart(other: Entry) {
      size == 0 || other.size == 0 || addr + size <= other.addr || other.addr + other.size <= addr
    }
  }

  /** Low memory, the EBDA, the ACPI tables and the firmware. */
  const FIXED: seq<Entry> := [
    Entry(0, 639 * 1024, E820_RAM),
    Entry(639 * 1024, 1024, E820_RESERVED),
    Entry(0xd0000, 128 * 1024, E820_NVS),
    Entry(0xf0000, 64 * 1024, E820_RESERVED)
  ]

  const MMCONFIG: Entry := Entry(MMCONFIG_BASE, MMCONFIG_SIZE, E820_RESERVED)

  /** An entry without its first megabyte; the size has 64 bits. */
  function AboveFirstMB(e: Entry): Entry {
    Entry(MB, (e.size - MB) % DWORD, e.kind)
  }

  /** The entries with the first one that starts at 0 cut at 1 MB. */
  function SplitLow(s: seq<Entry>): seq<Entry> {
    if s == [] then []
    else if s[0].addr == 0 then [AboveFirstMB(s[0])] + s[1..]
    else [s[0]] + SplitLow(s[1..])
  }

  /** The size of the first entry that starts at 0, as a 32-bit number. */
  function LowTop(s: seq<Entry>): Option<nat> {
    if s == [] then None
    else if s[0].addr == 0 then Some(s[0].size % WORD)
    else LowTop(s[1..])
  }

  /** What the map becomes; last is what the memory of its last entry held before. */
  function Built(file: seq<Entry>, mmconfig: bool, last: Entry): seq<Entry> {
    FIXED + if mmconfig then [MMCONFIG] + SplitLow(file) else SplitLow(file + [last])
  }

  function BuiltLowTop(file: seq<Entry>, mmconfig: bool, last: Entry): Option<nat> {
    LowTop(if mmconfig then file else file + [last])
  }

  lemma {:induction false} SplitPrefix(a: seq<Entry>, b: seq<Entry>)
    requires forall e | e in a :: e.addr != 0
    ensures SplitLow(a + b) == a + SplitLow(b) && LowTop(a + b) == LowTop(b)
  {
    if a == [] {
      assert a + b == b;
    } else {
      assert (a + b)[1..] == a[1..] + b;
      SplitPrefix(a[1..], b);
    }
  }

  lemma BuiltLength(file: seq<Entry>, haveMmconfig: bool, last: Entry)
    ensures |Built(file, haveMmconfig, last)| == |file| + 5
  {
    SplitLength(file);
    SplitLength(file + [last]);
  }

  lemma {:induction false} SplitLength(s: seq<Entry>)
    ensures |SplitLow(s)| == |s|
  {
    if s != [] { SplitLength(s[1..]); }
  }

  predicate FirstAtZero(s: seq<Entry>, k: nat) {
    k < |s| && s[k].addr == 0 && forall e | e in s[..k] :: e.addr != 0
  }

  lemma SplitAtFirst(s: seq<Entry>, k: nat)
    requires FirstAtZero(s, k)
    ensures SplitLow(s) == s[k := AboveFirstMB(s[k])] && LowTop(s) == Some(s[k].size % WORD)
  {
    assert s == s[..k] + ([s[k]] + s[k + 1..]);
    SplitPrefix(s[..k], [s[k]] + s[k + 1..]);
    assert ([s[k]] + s[k + 1..])[1..] == s[k + 1..];
    assert s[k := AboveFirstMB(s[k])] == s[..k] + ([AboveFirstMB(s[k])] + s[k + 1..]);
  }

  lemma NothingToSplit(s: seq<Entry>)
    requires forall e | e in s :: e.addr != 0
    ensures SplitLow(s) == s && LowTop(s) == None
  {
    assert s + [] == s;
    SplitPrefix(s, []);
  }

  lemma CutIsAboveFirstMB(e: Entry)
    ensures Entry(MB, (e.size - MB) % DWORD, e.kind) == AboveFirstMB(e)
  {
  }

  // ---------- the map with MMCONFIG ----------

  /** A file map as the platform provides it: disjoint entries that leave the MMCONFIG window free,
      of which exactly one starts at 0; that is RAM of at least 1 MB and less than 4 GB. */
  predicate PlatformMap(file: seq<Entry>, low: nat) {
    && low < |file| && file[low].addr == 0 && file[low].kind == E820_RAM && MB <= file[low].size < WORD
    && (forall i | 0 <= i < |file| && i != low :: file[i].addr != 0)
    && (forall i | 0 <= i < |file| :: file[i].Apart(MMCONFIG))
    && PairwiseApart(file)
  }

  predicate PairwiseApart(s: seq<Entry>) {
    forall i, j | 0 <= i < j < |s| :: s[i].Apart(s[j])
  }

  /** Address a is usable memory. */
  predicate IsRam(s: seq<Entry>, a: nat) {
    exists i :: 0 <= i < |s| && s[i].kind == E820_RAM && s[i].Covers(a)
  }

  lemma SplitOfPlatform(file: seq<Entry>, low: nat)
    requires PlatformMap(file, low)
    ensures SplitLow(file) == file[low := Entry(MB, file[low].size - MB, E820_RAM)]
    ensures LowTop(file) == Some(file[low].size)
  {
    SplitAtFirst(file, low);
  }

  lemma FixedAndMmconfigApart()
    ensures PairwiseApart(FIXED + [MMCONFIG])
  {
  }

  /** Entries that the platform put beside its low RAM stay clear of everything below 1 MB. */
  lemma OthersAboveFirstMB(file: seq<Entry>, low: nat, i: nat)
    requires PlatformMap(file, low) && i < |file| && i != low
    ensures file[i].size == 0 || file[i].addr >= file[low].size >= MB
  {
    if i < low {
      assert file[i].Apart(file[low]);
    } else {
      assert file[low].Apart(file[i]);
    }
  }

  /** With MMCONFIG the map that is built has disjoint entries, its RAM is exactly the RAM of the
      platform without [639 KB, 1 MB), and lowmem is the top of low memory. */
  lemma MapWithMmconfig(file: seq<Entry>, low: nat, last: Entry)
    requires PlatformMap(file, low)
    ensures var m := Built(file, true, last);
            && PairwiseApart(m)
            && (forall a: nat :: IsRam(m, a) <==> IsRam(file, a) && !(0x9fc00 <= a < 0x100000))
            && BuiltLowTop(file, true, last) == Some(file[low].size)
  {
    SplitOfPlatform(file, low);
    var m, top := Built(file, true, last), file[low].size;
    var s := SplitLow(file);
    assert m == FIXED + [MMCONFIG] + s;
    forall i, j | 0 <= i < j < |m| ensures m[i].Apart(m[j]) {
      FixedAndMmconfigApart();
      if i < 5 && j < 5 {
        assert m[i] == (FIXED + [MMCONFIG])[i] && m[j] == (FIXED + [MMCONFIG])[j];
      } else if j >= 5 {
        var k := j - 5;
        assert m[j] == s[k];
        if k != low { OthersAboveFirstMB(file, low, k); }
        if i >= 5 {
          assert m[i] == s[i - 5];
          assert file[i - 5].Apart(file[k]);
        } else {
          assert m[i] == (FIXED + [MMCONFIG])[i];
          assert file[k].Apart(MMCONFIG);
        }
      }
    }
    forall a: nat ensures IsRam(m, a) <==> IsRam(file, a) && !(0x9fc00 <= a < 0x100000) {
      RamWithMmconfig(file, low, last, a);
    }
  }

  lemma RamWithMmconfig(file: seq<Entry>, low: nat, last: Entry, a: nat)
    requires PlatformMap(file, low)
    ensures IsRam(Built(file, true, last), a) <==> IsRam(file, a) && !(0x9fc00 <= a < 0x100000)
  {
    hide IsRam, Built;
    BuiltRam(file, low, last, a);
    GivenRam(file, low, a);
    SplitRam(file, low, a);
  }

  /** RAM in the built map is the first fixed entry or lies in what the file gives. */
  lemma BuiltRam(file: seq<Entry>, low: nat, last: Entry, a: nat)
    requires PlatformMap(file, low)
    ensures IsRam(Built(file, true, last), a) <==> a < 639 * 1024 || IsRam(SplitLow(file), a)
  {
    hide PlatformMap, SplitLow;
    var m, s := Built(file, true, last), SplitLow(file);
    assert m == FIXED + [MMCONFIG] + s;
    if IsRam(m, a) {
      var i :| 0 <= i < |m| && m[i].kind == E820_RAM && m[i].Covers(a);
      if i < 5 {
        assert m[i] == (FIXED + [MMCONFIG])[i];
      } else {
        assert m[i] == s[i - 5];
      }
    }
    if a < 639 * 1024 {
      assert m[0] == FIXED[0];
    }
    if IsRam(s, a) {
      var k :| 0 <= k < |s| && s[k].kind == E820_RAM && s[k].Covers(a);
      assert m[5 + k] == s[k];
    }
  }

  /** The split takes exactly the first megabyte away. */
  lemma SplitRam(file: seq<Entry>, low: nat, a: nat)
    requires PlatformMap(file, low)
    ensures IsRam(SplitLow(file), a) <==> a >= MB && IsRam(file, a)
  {
    SplitOfPlatform(file, low);
    var s := SplitLow(file);
    hide SplitLow, PlatformMap;
    if IsRam(s, a) {
      var k :| 0 <= k < |s| && s[k].kind == E820_RAM && s[k].Covers(a);
      if k != low { OthersAboveFirstMB(file, low, k); }
      assert file[k].kind == E820_RAM && file[k].Covers(a);
    }
    if a >= MB && IsRam(file, a) {
      var k :| 0 <= k < |file| && file[k].kind == E820_RAM && file[k].Covers(a);
      assert s[k].kind == E820_RAM && s[k].Covers(a);
    }
  }

  lemma GivenRam(file: seq<Entry>, low: nat, a: nat)
    requires PlatformMap(file, low)
    ensures a < MB ==> IsRam(file, a)
  {
    assert a < MB ==> file[low].Covers(a);
  }

  // ---------- the map without MMCONFIG ----------

  /** Every entry that the map counts has been written exactly when there is an MMCONFIG window:
      without one the last entry is whatever the memory held. */
  lemma CompleteIffMmconfig(file: seq<Entry>, mmconfig: bool)
    ensures (forall a, b :: Built(file, mmconfig, a) == Built(file, mmconfig, b)) <==> mmconfig
  {
    if !mmconfig {
      var a, b := Entry(1, 0, 0), Entry(2, 0, 0);
      LastShows(file, a);
      LastShows(file, b);
      var n := 4 + |file|;
      assert Built(file, mmconfig, a)[n] == a && Built(file, mmconfig, b)[n] == b;
    }
  }

  lemma {:induction false} LastShows(file: seq<Entry>, e: Entry)
    requires e.addr != 0
    ensures |SplitLow(file + [e])| == |file| + 1 && SplitLow(file + [e])[|file|] == e
  {
    if file != [] {
      assert (file + [e])[1..] == file[1..] + [e];
      LastShows(file[1..], e);
    }
  }
}
