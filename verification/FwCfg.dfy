/** The file directory and the data stream of the fw_cfg device (fw_cfg.c). */
module FwCfg {
  import opened Bytes

  const NAME_SIZE: nat := 56

  /** A directory entry together with the data behind its selector. */
  datatype File = File(name: FileName, data: seq<byte>)

  type FileName = s: seq<byte> | |s| == NAME_SIZE witness seq(NAME_SIZE, _ => 0)

  type Directory = seq<File>

  /** What a caller may pass as a name: a buffer that ends with a NUL or fills the name field. */
  predicate IsName(a: seq<byte>) {
    0 in a || |a| >= NAME_SIZE
  }

  /** The characters before the first NUL. */
  function CString(a: seq<byte>): (s: seq<byte>)
    ensures |s| <= |a| && s == a[..|s|] && 0 !in s
    ensures |s| < |a| ==> a[|s|] == 0
  {
    if a == [] || a[0] == 0 then [] else [a[0]] + CString(a[1..])
  }

  /** Two names match when they are the same C string and both are ended within the field: a
      directory name that fills all its 56 bytes matches nothing. */
  predicate Matches(a: seq<byte>, name: seq<byte>) {
    CString(a) == CString(name) && |CString(name)| < NAME_SIZE
  }

  lemma {:induction false} CStringIs(a: seq<byte>, k: nat)
    requires k <= |a| && 0 !in a[..k] && (k == |a| || a[k] == 0)
    ensures CString(a) == a[..k]
  {
    if k > 0 {
      assert a[0] in a[..k];
      assert a[1..][..k - 1] == a[..k][1..];
      CStringIs(a[1..], k - 1);
    }
  }

  lemma {:induction false} CStringLonger(a: seq<byte>, k: nat)
    requires k <= |a| && 0 !in a[..k]
    ensures |CString(a)| >= k && CString(a)[..k] == a[..k]
  {
    if k > 0 {
      assert a[0] in a[..k];
      assert a[1..][..k - 1] == a[..k][1..];
      CStringLonger(a[1..], k - 1);
    }
  }

  lemma CStringsDiffer(a: seq<byte>, b: seq<byte>, i: nat)
    requires i < |a| && i < |b| && a[..i] == b[..i] && 0 !in a[..i] && a[i] != b[i]
    ensures CString(a) != CString(b)
  {
    if a[i] == 0 {
      CStringIs(a, i);
    } else {
      assert a[..i + 1] == a[..i] + [a[i]];
      CStringLonger(a, i + 1);
      assert CString(a)[..i + 1][i] == a[i];
    }
    if b[i] == 0 {
      CStringIs(b, i);
    } else {
      assert b[..i + 1] == b[..i] + [b[i]];
      CStringLonger(b, i + 1);
      assert CString(b)[..i + 1][i] == b[i];
    }
  }

  lemma TerminatedIs(t: seq<byte>)
    requires 0 !in t
    ensures 0 in t + [0] && CString(t + [0]) == t
  {
    assert (t + [0])[..|t|] == t && (t + [0])[|t|] == 0;
    CStringIs(t + [0], |t|);
  }

  /** A name that has not ended after k characters has a next one. */
  lemma NameGoesOn(a: seq<byte>, k: nat)
    requires IsName(a) && k <= |a| && k < NAME_SIZE && 0 !in a[..k]
    ensures k < |a|
  {
    assert a[..|a|] == a;
  }

  /** So, by their bytes: the names agree up to and including a first NUL at one of the positions 0 to 55. */
  lemma MatchesByBytes(a: seq<byte>, name: FileName)
    requires IsName(a)
    ensures Matches(a, name) <==>
              exists n: nat :: n < 56 && n < |a| && a[n] == 0 && 0 !in a[..n] && a[..n + 1] == name[..n + 1]
  {
    var n := |CString(name)|;
    if Matches(a, name) {
      NameGoesOn(a, n);
      assert a[..n + 1] == a[..n] + [a[n]] && name[..n + 1] == name[..n] + [name[n]];
    }
    forall k: nat | k < 56 && k < |a| && a[k] == 0 && 0 !in a[..k] && a[..k + 1] == name[..k + 1]
      ensures Matches(a, name)
    {
      assert a[..k] == a[..k + 1][..k] == name[..k] && name[k] == name[..k + 1][k] == a[..k + 1][k];
      CStringIs(a, k);
      CStringIs(name, k);
    }
  }

  method FileNameCmp(a: seq<byte>, name: seq<byte>) returns (r: int)
    requires IsName(a) && |name| == NAME_SIZE
    ensures r == 0 <==> Matches(a, name)
  {
    var n := NAME_SIZE;
    var i := 0;
    NameGoesOn(a, 0);
    while a[i] == name[i]
      invariant 0 <= i < NAME_SIZE && n == NAME_SIZE - i
      invariant i < |a| && a[..i] == name[..i] && 0 !in a[..i]
      decreases NAME_SIZE - i
    {
      if a[i] == 0 {
        CStringIs(a, i);
        CStringIs(name, i);
        return 0;
      }
      n := n - 1;
      if n == 0 {
        assert name[..i + 1] == name[..i] + [name[i]];
        CStringIs(name, NAME_SIZE);
        return a[i];
      }
      NameGoesOn(a, i + 1);
      i := i + 1;
    }
    CStringsDiffer(a, name, i);
    return a[i] as int - name[i] as int;
  }

  /** The index of the first matching file, or -1. */
  function FileId(dir: Directory, a: seq<byte>): (id: int)
    ensures -1 <= id < |dir|
  {
    FirstMatch(dir, a, 0)
  }

  function FirstMatch(dir: Directory, a: seq<byte>, i: nat): (id: int)
    requires i <= |dir|
    ensures id == -1 || i <= id < |dir|
    decreases |dir| - i
  {
    if i == |dir| then -1
    else if Matches(a, dir[i].name) then i
    else FirstMatch(dir, a, i + 1)
  }

  /** The id is that of the first file whose name matches, and -1 only if none does. */
  lemma {:induction false} FirstMatchIsFirst(dir: Directory, a: seq<byte>, i: nat)
    requires i <= |dir|
    ensures var id := FirstMatch(dir, a, i);
            && (id >= 0 ==> Matches(a, dir[id].name))
            && forall k | i <= k < if id == -1 then |dir| else id :: !Matches(a, dir[k].name)
    decreases |dir| - i
  {
    if i < |dir| && !Matches(a, dir[i].name) {
      FirstMatchIsFirst(dir, a, i + 1);
    }
  }

  lemma FileIdIsFirst(dir: Directory, a: seq<byte>, id: int)
    requires -1 <= id < |dir|
    ensures id == FileId(dir, a) <==>
              && (id >= 0 ==> Matches(a, dir[id].name))
              && forall k | 0 <= k < if id == -1 then |dir| else id :: !Matches(a, dir[k].name)
  {
    FirstMatchIsFirst(dir, a, 0);
  }

  method FwCfgFileId(dir: Directory, a: seq<byte>) returns (id: int)
    requires IsName(a)
    ensures id == FileId(dir, a)
  {
    for i := 0 to |dir|
      invariant FirstMatch(dir, a, 0) == FirstMatch(dir, a, i)
    {
      var c := FileNameCmp(a, dir[i].name);
      if c == 0 {
        return i;
      }
    }
    return -1;
  }

  function FileSize(dir: Directory, id: int): nat
    requires -1 <= id < |dir|
  {
    if id == -1 then 0 else |dir[id].data|
  }

  /** n bytes from a selected entry, from the given offset on; beyond its end an entry reads
      as zeros. */
  function Stream(data: seq<byte>, offset: nat, n: nat): (s: seq<byte>)
    ensures |s| == n
  {
    seq(n, i requires 0 <= i => if offset + i < |data| then data[offset + i] else 0)
  }

  lemma WholeStream(data: seq<byte>)
    ensures Stream(data, 0, |data|) == data
  {
  }

  /** Reading an entry in two parts is reading it at once. */
  lemma StreamSplit(data: seq<byte>, m: nat, n: nat)
    ensures Stream(data, 0, m) + Stream(data, m, n) == Stream(data, 0, m + n)
  {
  }

  method ReadStream(data: seq<byte>, offset: nat, mem: array<byte>, p: nat, n: nat)
    requires p + n <= mem.Length
    modifies mem
    ensures mem[..] == Patch(old(mem[..]), p, Stream(data, offset, n))
  {
    var s := Stream(data, offset, n);
    Store(mem, p, s);
  }

  method Store(mem: array<byte>, p: nat, s: seq<byte>)
    requires p + |s| <= mem.Length
    modifies mem
    ensures mem[..] == Patch(old(mem[..]), p, s)
  {
    forall i | 0 <= i < |s| {
      mem[p + i] := s[i];
    }
  }

  /** The device: a selected entry and how much of it has been read. */
  class Device {
    const entries: map<nat, seq<byte>>
    var selected: nat
    var offset: nat

    constructor (entries: map<nat, seq<byte>>)
      ensures this.entries == entries
    {
      this.entries := entries;
      selected, offset := 0, 0;
    }

    method Select(entry: nat)
      modifies this
      ensures selected == entry && offset == 0
    {
      selected, offset := entry, 0;
    }

    method Read(mem: array<byte>, p: nat, n: nat)
      requires p + n <= mem.Length
      modifies this, mem
      ensures selected == old(selected) && offset == old(offset) + n
      ensures mem[..] == Patch(old(mem[..]), p, Stream(Entry(entries, selected), old(offset), n))
    {
      ReadStream(Entry(entries, selected), offset, mem, p, n);
      offset := offset + n;
    }

    method ReadEntry(entry: nat, mem: array<byte>, p: nat, n: nat)
      requires p + n <= mem.Length
      modifies this, mem
      ensures mem[..] == Patch(old(mem[..]), p, Stream(Entry(entries, entry), 0, n))
    {
      Select(entry);
      Read(mem, p, n);
    }

    /** Selects an entry and reads a 32-bit number from it. */
    method ReadLong(entry: nat) returns (v: nat)
      modifies this
      ensures v == Long(entries, entry)
    {
      Select(entry);
      v := FromLE(Stream(Entry(entries, selected), offset, 4));
      offset := offset + 4;
    }
  }

  /** The data of an entry; one that does not exist reads as zeros. */
  function Entry(entries: map<nat, seq<byte>>, entry: nat): seq<byte> {
    if entry in entries then entries[entry] else []
  }

  function Long(entries: map<nat, seq<byte>>, entry: nat): (v: nat)
    ensures v < WORD
  {
    var b := Stream(Entry(entries, entry), 0, 4);
    FromLEBound(b);
    FourBytes();
    FromLE(b)
  }

  /** A number is read with its lowest byte first. */
  lemma LongByBytes(entries: map<nat, seq<byte>>, entry: nat)
    requires |Entry(entries, entry)| >= 4
    ensures var e := Entry(entries, entry);
            Long(entries, entry) == e[0] as nat + 256 * e[1] as nat + 65536 * e[2] as nat + 16777216 * e[3] as nat
  {
    hide FromLE;
    FourFrom(Stream(Entry(entries, entry), 0, 4));
  }
}
