/** How the entries of the memory map lie in memory and in the firmware-provided file. */
module MapLayout {
  import opened Bytes
  import opened MemoryMap

  const ENTRY_SIZE: nat := 20
  const MAP_OFFSET: nat := 4

  /** addr, size and type, packed. */
  function EntryBytes(e: Entry): (b: seq<byte>)
    ensures |b| == ENTRY_SIZE
  {
    ToLE(e.addr, 8) + ToLE(e.size, 8) + ToLE(e.kind, 4)
  }

  function AllEntryBytes(es: seq<Entry>): (b: seq<byte>)
    ensures |b| == ENTRY_SIZE * |es|
  {
    if es == [] then [] else AllEntryBytes(es[..|es| - 1]) + EntryBytes(es[|es| - 1])
  }

  /** struct e820map. */
  function MapBytes(es: seq<Entry>): seq<byte> {
    ToLE(|es|, MAP_OFFSET) + AllEntryBytes(es)
  }

  /** A record of the file, and all of them. */
  function EntryOf(b: seq<byte>): Entry
    requires |b| == ENTRY_SIZE
  {
    Entry(FromLE(b[0..8]), FromLE(b[8..16]), FromLE(b[16..20]))
  }

  function EntriesOf(b: seq<byte>): (es: seq<Entry>)
    ensures |es| == |b| / ENTRY_SIZE
  {
    if |b| < ENTRY_SIZE then []
    else EntriesOf(b[..|b| - ENTRY_SIZE]) + [EntryOf(b[|b| - ENTRY_SIZE..])]
  }

  /** An entry has two 64-bit numbers and a 32-bit one. */
  predicate Fits(e: Entry) {
    e.addr < DWORD && e.size < DWORD && e.kind < WORD
  }

  predicate AllFit(es: seq<Entry>) {
    forall e | e in es :: Fits(e)
  }

  lemma EightBytes()
    ensures Pow256(8) == DWORD && Pow256(4) == WORD
  {
    FourBytes();
    assert Pow256(5) == 256 * WORD && Pow256(6) == 65536 * WORD && Pow256(7) == 16777216 * WORD;
  }

  /** Bytes and entries determine each other. */
  lemma EntryBytesOf(b: seq<byte>)
    requires |b| == ENTRY_SIZE
    ensures EntryBytes(EntryOf(b)) == b && Fits(EntryOf(b))
  {
    hide FromLE, ToLE, Pow256;
    ToFromLE(b[0..8]);
    ToFromLE(b[8..16]);
    ToFromLE(b[16..20]);
    FromLEBound(b[0..8]);
    FromLEBound(b[8..16]);
    FromLEBound(b[16..20]);
    EightBytes();
    assert b == b[0..8] + b[8..16] + b[16..20];
  }

  lemma EntryOfBytes(e: Entry)
    requires Fits(e)
    ensures EntryOf(EntryBytes(e)) == e
  {
    hide FromLE, ToLE, Pow256;
    var b := EntryBytes(e);
    assert b[0..8] == ToLE(e.addr, 8) && b[8..16] == ToLE(e.size, 8) && b[16..20] == ToLE(e.kind, 4);
    FromToLE(e.addr, 8);
    FromToLE(e.size, 8);
    FromToLE(e.kind, 4);
    EightBytes();
    SmallMod(e.addr, DWORD);
    SmallMod(e.size, DWORD);
    SmallMod(e.kind, WORD);
  }

  lemma {:induction false} EntriesBytes(b: seq<byte>)
    requires |b| % ENTRY_SIZE == 0
    ensures AllEntryBytes(EntriesOf(b)) == b && AllFit(EntriesOf(b))
  {
    hide EntryOf, EntryBytes, Fits;
    if |b| >= ENTRY_SIZE {
      var n := |b| - ENTRY_SIZE;
      var front, last := EntriesOf(b[..n]), EntryOf(b[n..]);
      EntriesBytes(b[..n]);
      EntryBytesOf(b[n..]);
      assert EntriesOf(b) == front + [last];
      AllEntrySnoc(front, last);
    }
  }

  lemma AllEntrySnoc(es: seq<Entry>, e: Entry)
    ensures AllEntryBytes(es + [e]) == AllEntryBytes(es) + EntryBytes(e)
  {
    hide EntryBytes;
    assert (es + [e])[..|es|] == es;
  }

  lemma {:induction false} AllEntryConcat(a: seq<Entry>, b: seq<Entry>)
    ensures AllEntryBytes(a + b) == AllEntryBytes(a) + AllEntryBytes(b)
  {
    hide EntryBytes;
    if b == [] {
      assert a + b == a;
    } else {
      var n := |b| - 1;
      AllEntryConcat(a, b[..n]);
      assert a + b == a + b[..n] + [b[n]];
      AllEntrySnoc(a + b[..n], b[n]);
    }
  }

  /** Overwriting a run of entries. */
  lemma PatchEntries(es: seq<Entry>, k: nat, new': seq<Entry>)
    requires k + |new'| <= |es|
    ensures Patch(AllEntryBytes(es), ENTRY_SIZE * k, AllEntryBytes(new')) ==
            AllEntryBytes(es[..k] + new' + es[k + |new'|..])
  {
    hide AllEntryBytes;
    var a, b, c := es[..k], es[k..k + |new'|], es[k + |new'|..];
    AllEntryConcat(a + b, c);
    AllEntryConcat(a, b);
    AllEntryConcat(a + new', c);
    AllEntryConcat(a, new');
    assert es == a + b + c;
    PatchMiddle(AllEntryBytes(a), AllEntryBytes(b), AllEntryBytes(new'), AllEntryBytes(c));
  }

  lemma PatchMiddle(a: seq<byte>, b: seq<byte>, b': seq<byte>, c: seq<byte>)
    requires |b| == |b'|
    ensures Patch(a + b + c, |a|, b') == a + b' + c
  {
  }

  lemma OneEntryBytes(e: Entry)
    ensures AllEntryBytes([e]) == EntryBytes(e)
  {
    hide EntryBytes;
    assert [e][..0] == [] && AllEntryBytes([]) == [];
  }

  lemma {:induction false} EntryInBytes(es: seq<Entry>, k: nat)
    requires k < |es|
    ensures ENTRY_SIZE * k + ENTRY_SIZE <= |AllEntryBytes(es)|
    ensures AllEntryBytes(es)[ENTRY_SIZE * k..ENTRY_SIZE * k + ENTRY_SIZE] == EntryBytes(es[k])
  {
    hide EntryBytes;
    var n := |es| - 1;
    var front := AllEntryBytes(es[..n]);
    if k < n {
      EntryInBytes(es[..n], k);
      assert AllEntryBytes(es)[ENTRY_SIZE * k..ENTRY_SIZE * k + ENTRY_SIZE] ==
             front[ENTRY_SIZE * k..ENTRY_SIZE * k + ENTRY_SIZE];
    }
  }
}
