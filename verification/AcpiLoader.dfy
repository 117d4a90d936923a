/** The loader of tables.c running over memory: files are placed by the allocators, patched in
    place, and found again through an array of addresses. */
module AcpiLoader {
  import opened Bytes
  import opened StringLib
  import opened Malloc
  import opened FwCfg
  import opened AcpiScript

  const FILE_COUNT: int := 20
  const RSDP_SIGNATURE: seq<byte> := [0x52, 0x53, 0x44, 0x20, 0x50, 0x54, 0x52, 0x20]

  /** What a script must satisfy so that the loader indexes nothing out of bounds: names that the
      directory knows, ids that fit the address array, relocated fields inside their file,
      and power-of-two alignments. An ALLOC of an unknown file is fine: it panics. */
  ghost predicate CommandOk(dir: Directory, c: Command) {
    match c
    case Alloc(file, _, _) =>
      IsName(file) && FileId(dir, file) < FILE_COUNT && IsPowerOfTwo(AlignOf(c))
    case Ptr(dest, src, offset, size) =>
      && IsName(dest) && IsName(src)
      && 0 <= FileId(dir, dest) < FILE_COUNT && 0 <= FileId(dir, src) < FILE_COUNT
      && size <= 8 && offset + size <= |dir[FileId(dir, dest)].data|
    case Checksum(file, _, _, _) =>
      IsName(file) && 0 <= FileId(dir, file) < FILE_COUNT
    case _ => true
  }

  /** The memory a script asks one allocator for, padding included. */
  ghost function Wanted(dir: Directory, script: seq<Command>, fseg: bool): nat {
    if script == [] || script[0].Quit? then 0
    else
      var c := script[0];
      var rest := Wanted(dir, script[1..], fseg);
      if c.Alloc? && (c.zone == ALLOC_FSEG) == fseg then rest + FileSize(dir, FileId(dir, c.file)) + AlignOf(c) - 1
      else rest
  }

  ghost predicate Room(dir: Directory, script: seq<Command>, t: Tables, size: nat) {
    && Wanted(dir, script, false) < t.top
    && t.fseg + Wanted(dir, script, true) + |RSDP_SIGNATURE| <= size < WORD
  }

  // ---------- where files lie ----------

  ghost predicate Lies(p: Placed, lo: nat, hi: nat) {
    lo <= p.addr && p.addr + |p.bytes| <= hi
  }

  ghost predicate Separate(p: Placed, q: Placed) {
    p.addr + |p.bytes| <= q.addr || q.addr + |q.bytes| <= p.addr
  }

  /** The files of t keep their sizes and lie apart from each other in the two allocated areas. */
  ghost predicate WellPlaced(dir: Directory, t: Tables, top0: nat, base0: nat) {
    && 0 < t.top <= top0 <= base0 <= t.fseg
    && (forall id | id in t.files ::
          && 0 <= id < FILE_COUNT && id < |dir| && |t.files[id].bytes| == |dir[id].data|
          && (Lies(t.files[id], t.top, top0) || Lies(t.files[id], base0, t.fseg)))
    && (forall i, j | i in t.files && j in t.files && i != j :: Separate(t.files[i], t.files[j]))
  }

  /** Memory m holds the files. */
  ghost predicate Holds(m: seq<byte>, files: map<int, Placed>) {
    forall id | id in files ::
      var p := files[id];
      p.addr + |p.bytes| <= |m| && m[p.addr..p.addr + |p.bytes|] == p.bytes
  }

  ghost predicate Covered(given: seq<Block>, a: nat) {
    exists b :: b in given && b.Contains(a)
  }

  /** Outside the given blocks memory is as it was. */
  ghost predicate Untouched(m0: seq<byte>, m: seq<byte>, given: seq<Block>) {
    |m| == |m0| && forall a | 0 <= a < |m| && !Covered(given, a) :: m[a] == m0[a]
  }

  ghost predicate InGiven(files: map<int, Placed>, given: seq<Block>) {
    forall id | id in files ::
      exists b :: b in given && b.start == files[id].addr && b.size == |files[id].bytes|
  }

  function Place(t: Tables, id: int, p: Placed): Tables {
    t.(files := t.files[id := p])
  }

  /** File id of t with the bytes s written at the given offset. */
  function Edited(t: Tables, id: int, offset: nat, s: seq<byte>): Tables
    requires id in t.files && offset + |s| <= |t.files[id].bytes|
  {
    Place(t, id, t.files[id].(bytes := Patch(t.files[id].bytes, offset, s)))
  }

  /** A new place below everything handed out downwards, or above everything handed out upwards. */
  lemma NewPlace(dir: Directory, t: Tables, top0: nat, base0: nat, id: int, p: nat, top: nat, fseg: nat)
    requires WellPlaced(dir, t, top0, base0) && 0 <= id < FILE_COUNT && id < |dir|
    requires var n := |dir[id].data|;
             || (0 < top == p && p + n <= t.top && fseg == t.fseg)
             || (top == t.top && t.fseg <= p && fseg == p + n)
    ensures var new' := Placed(p, dir[id].data);
            && WellPlaced(dir, Place(t, id, new').(top := top, fseg := fseg), top0, base0)
            && forall i | i in t.files && i != id :: Separate(t.files[i], new')
  {
  }

  lemma PlacedBounds(dir: Directory, t: Tables, top0: nat, base0: nat)
    requires WellPlaced(dir, t, top0, base0)
    ensures 0 < t.top <= top0 <= base0 <= t.fseg
  {
  }

  lemma EditPlaced(dir: Directory, t: Tables, top0: nat, base0: nat, id: int, offset: nat, s: seq<byte>)
    requires WellPlaced(dir, t, top0, base0) && id in t.files && offset + |s| <= |t.files[id].bytes|
    ensures WellPlaced(dir, Edited(t, id, offset, s), top0, base0)
    ensures forall i | i in t.files && i != id :: Separate(t.files[i], t.files[id])
    ensures 0 < t.files[id].addr
  {
    var t' := Edited(t, id, offset, s);
    forall i, j | i in t'.files && j in t'.files && i != j ensures Separate(t'.files[i], t'.files[j]) {
      assert Separate(t.files[i], t.files[j]);
    }
  }

  lemma EditGiven(t: Tables, given: seq<Block>, id: int, offset: nat, s: seq<byte>)
    requires InGiven(t.files, given) && id in t.files && offset + |s| <= |t.files[id].bytes|
    ensures InGiven(Edited(t, id, offset, s).files, given)
  {
  }

  lemma PlaceGiven(t: Tables, given: seq<Block>, id: int, p: Placed, b: Block)
    requires InGiven(t.files, given) && b.start == p.addr && b.size == |p.bytes|
    ensures InGiven(Place(t, id, p).files, given + [b])
  {
    var t' := Place(t, id, p);
    forall i | i in t'.files
      ensures exists b' :: b' in given + [b] && b'.start == t'.files[i].addr && b'.size == |t'.files[i].bytes|
    {
      if i == id {
        assert b in given + [b];
      } else {
        var b' :| b' in given && b'.start == t.files[i].addr && b'.size == |t.files[i].bytes|;
        assert b' in given + [b];
      }
    }
  }

  /** Placing a file in memory that no other file uses. */
  lemma PlaceHolds(m: seq<byte>, t: Tables, id: int, p: Placed)
    requires Holds(m, t.files) && p.addr + |p.bytes| <= |m|
    requires forall i | i in t.files && i != id :: Separate(t.files[i], p)
    ensures Holds(Patch(m, p.addr, p.bytes), Place(t, id, p).files)
  {
    forall i | i in t.files && i != id
      ensures var q := t.files[i]; Patch(m, p.addr, p.bytes)[q.addr..q.addr + |q.bytes|] == q.bytes
    {
      var q := t.files[i];
      PatchElsewhere(m, q.addr, |q.bytes|, p.addr, p.bytes);
    }
    assert Patch(m, p.addr, p.bytes)[p.addr..p.addr + |p.bytes|] == p.bytes;
  }

  /** Writing inside one file. */
  lemma EditHolds(m: seq<byte>, t: Tables, id: int, offset: nat, s: seq<byte>)
    requires Holds(m, t.files) && id in t.files && offset + |s| <= |t.files[id].bytes|
    requires forall i | i in t.files && i != id :: Separate(t.files[i], t.files[id])
    ensures t.files[id].addr + offset + |s| <= |m|
    ensures Holds(Patch(m, t.files[id].addr + offset, s), Edited(t, id, offset, s).files)
  {
    hide Patch;
    var p := t.files[id];
    assert p.addr + |p.bytes| <= |m|;
    var m' := Patch(m, p.addr + offset, s);
    PatchWindow(m, p.addr, |p.bytes|, offset, s);
    forall i | i in t.files && i != id
      ensures var q := t.files[i]; m'[q.addr..q.addr + |q.bytes|] == q.bytes
    {
      var q := t.files[i];
      PatchElsewhere(m, q.addr, |q.bytes|, p.addr + offset, s);
    }
  }

  lemma CoveredMore(given: seq<Block>, b: Block, a: nat)
    ensures Covered(given, a) ==> Covered(given + [b], a)
  {
    forall b' | b' in given && b'.Contains(a) ensures Covered(given + [b], a) {
      assert b' in given + [b];
    }
  }

  lemma HoldsAt(m: seq<byte>, t: Tables, id: int, lo: nat, n: nat)
    requires Holds(m, t.files) && Has(t, id, lo, n)
    ensures t.files[id].addr + lo + n <= |m|
    ensures m[t.files[id].addr + lo..t.files[id].addr + lo + n] == t.files[id].bytes[lo..lo + n]
  {
    var p := t.files[id];
    SliceOfSlice(m, p.addr, |p.bytes|, lo, n);
  }

  lemma PlaceUntouched(m0: seq<byte>, m: seq<byte>, given: seq<Block>, b: Block, s: seq<byte>)
    requires Untouched(m0, m, given) && b.start + |s| <= |m| && |s| == b.size
    ensures Untouched(m0, Patch(m, b.start, s), given + [b])
  {
    forall a | 0 <= a < |m| && !Covered(given + [b], a)
      ensures Patch(m, b.start, s)[a] == m0[a]
    {
      assert b in given + [b];
      CoveredMore(given, b, a);
    }
  }

  lemma EditUntouched(m0: seq<byte>, m: seq<byte>, given: seq<Block>, t: Tables, id: int, offset: nat, s: seq<byte>)
    requires Untouched(m0, m, given) && InGiven(t.files, given) && id in t.files
    requires offset + |s| <= |t.files[id].bytes| && t.files[id].addr + offset + |s| <= |m|
    ensures Untouched(m0, Patch(m, t.files[id].addr + offset, s), given)
  {
    var b :| b in given && b.start == t.files[id].addr && b.size == |t.files[id].bytes|;
    forall a | 0 <= a < |m| && !Covered(given, a)
      ensures Patch(m, t.files[id].addr + offset, s)[a] == m0[a]
    {
      assert !b.Contains(a);
    }
  }

  lemma WantedOne(dir: Directory, c: Command)
    requires c.Alloc?
    ensures Wanted(dir, [c], c.zone == ALLOC_FSEG) == FileSize(dir, FileId(dir, c.file)) + AlignOf(c) - 1
  {
    assert [c][1..] == [];
    assert Wanted(dir, [], c.zone == ALLOC_FSEG) == 0;
  }

  predicate Succeeds(dir: Directory, c: Command, t: Tables) {
    Execute(dir, c, t).Next?
  }

  /** The tables after a command; a command that panics leaves them alone. */
  function After(dir: Directory, c: Command, t: Tables): Tables {
    match Execute(dir, c, t)
    case Next(t') => t'
    case _ => t
  }

  lemma PtrPanics(dir: Directory, c: Command, t: Tables)
    requires c.Ptr? && (FileId(dir, c.src) !in t.files || FileId(dir, c.dest) !in t.files)
    ensures !Succeeds(dir, c, t) && After(dir, c, t) == t
  {
    hide FileId;
  }

  lemma PtrSucceeds(dir: Directory, c: Command, t: Tables, from: int, to: int)
    requires c.Ptr? && c.size <= 8 && from == FileId(dir, c.src) && to == FileId(dir, c.dest)
    requires from in t.files && to in t.files && c.offset + c.size <= |t.files[to].bytes|
    ensures Succeeds(dir, c, t)
    ensures After(dir, c, t) ==
            Edited(t, to, c.offset,
                   ToLE(Cut(FromLE(t.files[to].bytes[c.offset..c.offset + c.size]) + t.files[from].addr, 8), c.size))
  {
    hide FromLE, ToLE, Cut, FileId, Relocated, Patch;
    RelocatedIsPatch(t.files[to].bytes, c.offset, c.size, t.files[from].addr);
  }

  /** Adding in 64 bits and keeping the low bytes is adding in the width of the field. */
  lemma RelocatedIsPatch(b: seq<byte>, offset: nat, size: nat, x: nat)
    requires size <= 8 && offset + size <= |b|
    ensures Relocated(b, offset, size, x) ==
            Patch(b, offset, ToLE(Cut(FromLE(b[offset..offset + size]) + x, 8), size))
  {
    hide FromLE, ToLE, Cut, Patch;
    ToLEMod(FromLE(b[offset..offset + size]) + x, size, 8);
  }

  lemma ChecksumPanics(dir: Directory, c: Command, t: Tables)
    requires c.Checksum?
    requires var id := FileId(dir, c.file);
             id !in t.files || c.offset >= |t.files[id].bytes| || c.start + c.len > |t.files[id].bytes|
    ensures !Succeeds(dir, c, t) && After(dir, c, t) == t
  {
    hide FileId, Checksummed;
  }

  lemma ChecksumSucceeds(dir: Directory, c: Command, t: Tables, id: int)
    requires c.Checksum? && id == FileId(dir, c.file) && id in t.files
    requires c.offset < |t.files[id].bytes| && c.start + c.len <= |t.files[id].bytes|
    ensures Succeeds(dir, c, t)
    ensures var b := t.files[id].bytes;
            After(dir, c, t) ==
            Edited(t, id, c.offset, [(b[c.offset] - Sum(b[c.start..c.start + c.len]) % 256) % 256])
  {
    hide Sum, FileId, Checksummed, Patch;
    ChecksummedIsPatch(t.files[id].bytes, c.offset, c.start, c.len);
  }

  lemma AllocPanics(dir: Directory, c: Command, t: Tables)
    requires c.Alloc? && FileId(dir, c.file) == -1
    ensures !Succeeds(dir, c, t) && After(dir, c, t) == t
  {
    hide FileId;
  }

  function AllocAddress(dir: Directory, c: Command, t: Tables): nat
    requires c.Alloc?
  {
    if c.zone == ALLOC_FSEG then RoundUp(t.fseg, AlignOf(c))
    else RoundDown((t.top - FileSize(dir, FileId(dir, c.file))) % WORD, AlignOf(c))
  }

  function Given(t: Tables, fseg: bool, id: int, p: nat, data: seq<byte>): Tables {
    if fseg then Place(t, id, Placed(p, data)).(fseg := p + |data|)
    else Place(t, id, Placed(p, data)).(top := p)
  }

  lemma AllocSucceeds(dir: Directory, c: Command, t: Tables, id: int)
    requires c.Alloc? && id == FileId(dir, c.file) && id != -1
    ensures Succeeds(dir, c, t)
    ensures After(dir, c, t) == Given(t, c.zone == ALLOC_FSEG, id, AllocAddress(dir, c, t), dir[id].data)
  {
    hide FileId, RoundDown, RoundUp;
  }

  /** Where there is room for a request, the block is inside it and not at address 0. */
  lemma AllocFits(dir: Directory, c: Command, t: Tables, size: nat)
    requires c.Alloc? && Room(dir, [c], t, size)
    ensures var n, a := FileSize(dir, FileId(dir, c.file)), AlignOf(c);
            if c.zone == ALLOC_FSEG then
              var p := RoundUp(t.fseg, a);
              t.fseg + a - 1 + n < WORD && t.fseg <= p && p + n + |RSDP_SIGNATURE| <= size
            else n <= t.top && 0 < RoundDown(t.top - n, a) <= t.top - n
    ensures t.top < WORD ==>
              var n, a := FileSize(dir, FileId(dir, c.file)), AlignOf(c);
              AllocAddress(dir, c, t) ==
              if c.zone == ALLOC_FSEG then RoundUp(t.fseg, a) else RoundDown(t.top - n, a)
  {
    hide RoundDown, RoundUp, FileId, Wanted;
    WantedOne(dir, c);
    var n, a := FileSize(dir, FileId(dir, c.file)), AlignOf(c);
    if c.zone == ALLOC_FSEG {
      MultipleAbove(t.fseg, a);
    } else {
      MultipleAbove(t.top - n, a);
    }
  }

  // ---------- whole scripts ----------

  /** "etc/table-loader", with its NUL. */
  const LOADER_NAME: seq<byte> :=
    [0x65, 0x74, 0x63, 0x2F, 0x74, 0x61, 0x62, 0x6C, 0x65, 0x2D, 0x6C, 0x6F, 0x61, 0x64, 0x65, 0x72, 0]

  /** The script that the directory holds; no such file is an empty script. */
  function LoaderScript(dir: Directory): seq<Command> {
    var id := FileId(dir, LOADER_NAME);
    if id == -1 then [] else DecodeAll(dir[id].data)
  }

  /** Every command up to the first QUIT is well formed. */
  ghost predicate ScriptOk(dir: Directory, script: seq<Command>) {
    script == [] || script[0].Quit? || (CommandOk(dir, script[0]) && ScriptOk(dir, script[1..]))
  }

  lemma RecordBounds(i: nat, n: nat)
    requires i < n / RECORD_SIZE
    ensures (i + 1) * RECORD_SIZE <= n
  {
  }

  lemma QuitStops(dir: Directory, script: seq<Command>, t: Tables)
    requires script != [] && script[0].Quit?
    ensures Interpret(dir, script, t) == Loaded(t)
  {
  }

  /** A script that is well formed and has room stays so while it runs. */
  lemma NextCommand(dir: Directory, script: seq<Command>, t: Tables, size: nat)
    requires script != [] && !script[0].Quit? && t.top < WORD
    requires ScriptOk(dir, script) && Room(dir, script, t, size)
    ensures CommandOk(dir, script[0]) && Room(dir, [script[0]], t, size)
    ensures if Succeeds(dir, script[0], t) then
              var t' := After(dir, script[0], t);
              && Interpret(dir, script, t) == Interpret(dir, script[1..], t')
              && ScriptOk(dir, script[1..]) && Room(dir, script[1..], t', size)
            else Interpret(dir, script, t) == Panicked(t) && After(dir, script[0], t) == t
  {
    hide CommandOk, FileId, RoundDown, RoundUp;
    var c := script[0];
    assert [c][1..] == [];
    assert Wanted(dir, [], true) == 0 && Wanted(dir, [], false) == 0;
    if c.Alloc? && FileId(dir, c.file) != -1 {
      AllocFits(dir, c, t, size);
      MultipleAbove(t.fseg, AlignOf(c));
      var n := FileSize(dir, FileId(dir, c.file));
      if c.zone != ALLOC_FSEG {
        MultipleAbove(t.top - n, AlignOf(c));
      }
    }
  }

  lemma Names()
    ensures LOADER_NAME == Ascii("etc/table-loader") + [0] && RSDP_SIGNATURE == Ascii("RSD PTR ")
  {
  }

  // ---------- the root pointer ----------

  /** Eight bytes are enough to tell; a shorter file tells only by a byte that differs. */
  predicate SignatureDecided(dir: Directory, c: Command) {
    c.Alloc? && c.zone == ALLOC_FSEG && FileId(dir, c.file) != -1 ==>
      var data := dir[FileId(dir, c.file)].data;
      |data| >= |RSDP_SIGNATURE| || data != RSDP_SIGNATURE[..|data|]
  }

  predicate AllDecided(dir: Directory, script: seq<Command>) {
    forall c | c in script :: SignatureDecided(dir, c)
  }

  lemma DecidedAt(dir: Directory, script: seq<Command>, i: nat)
    requires i < |script|
    ensures AllDecided(dir, script) ==> SignatureDecided(dir, script[i])
  {
    hide SignatureDecided;
  }

  predicate HasSignature(data: seq<byte>) {
    |data| >= |RSDP_SIGNATURE| && data[..|RSDP_SIGNATURE|] == RSDP_SIGNATURE
  }

  /** The address that is kept for a PVH kernel after a command. */
  function RootAfter(dir: Directory, c: Command, t: Tables, root: nat): nat {
    if c.Alloc? && c.zone == ALLOC_FSEG && FileId(dir, c.file) != -1 && HasSignature(dir[FileId(dir, c.file)].data)
    then AllocAddress(dir, c, t) else root
  }

  /** And after a script: the address of the last table in the F-segment that carries the signature. */
  function RootOf(dir: Directory, script: seq<Command>, t: Tables, root: nat): nat {
    if script == [] || !Succeeds(dir, script[0], t) then root
    else RootOf(dir, script[1..], After(dir, script[0], t), RootAfter(dir, script[0], t, root))
  }

  lemma RootStep(dir: Directory, script: seq<Command>, t: Tables, root: nat)
    requires script != []
    ensures RootOf(dir, script, t, root) ==
            if Succeeds(dir, script[0], t) then
              RootOf(dir, script[1..], After(dir, script[0], t), RootAfter(dir, script[0], t, root))
            else root
    ensures !Succeeds(dir, script[0], t) ==> RootAfter(dir, script[0], t, root) == root
    ensures script[0].Quit? ==> !Succeeds(dir, script[0], t)
  {
  }

  /** A command that may move the root pointer. */
  predicate MovesRoot(dir: Directory, c: Command) {
    && c.Alloc? && c.zone == 2 && FileId(dir, c.file) != -1
    && Ascii("RSD PTR ") <= dir[FileId(dir, c.file)].data
  }

  lemma RootMoves(dir: Directory, c: Command, t: Tables, root: nat)
    ensures Succeeds(dir, c, t) ==>
              RootAfter(dir, c, t, root) ==
              if MovesRoot(dir, c) then After(dir, c, t).files[FileId(dir, c.file)].addr else root
  {
    hide FileId, RoundDown, RoundUp;
    Names();
    if c.Alloc? && FileId(dir, c.file) != -1 {
      var data := dir[FileId(dir, c.file)].data;
      assert HasSignature(data) <==> Ascii("RSD PTR ") <= data;
    }
  }

  /** No file with the signature in the F-segment: the pointer stays. */
  lemma {:induction false} RootKept(dir: Directory, script: seq<Command>, t: Tables, root: nat)
    requires forall c | c in script :: !MovesRoot(dir, c)
    ensures RootOf(dir, script, t, root) == root
  {
    hide MovesRoot, RootAfter, Succeeds, After;
    if script != [] && Succeeds(dir, script[0], t) {
      assert script[0] in script;
      RootMoves(dir, script[0], t, root);
      RootKept(dir, script[1..], After(dir, script[0], t), root);
    }
  }

  /** The pointer that is kept leads to the last table with the signature, where it lies at the end. */
  lemma {:induction false} RootFound(dir: Directory, before: seq<Command>, c: Command, after: seq<Command>,
                                     t: Tables, root: nat)
    requires MovesRoot(dir, c) && (forall d | d in after :: !MovesRoot(dir, d))
    requires !Allocates(dir, after, FileId(dir, c.file)) && Interpret(dir, before, t).Loaded? && Quit !in before
    ensures var r, id := Interpret(dir, before + ([c] + after), t).t, FileId(dir, c.file);
            id in r.files && RootOf(dir, before + ([c] + after), t, root) == r.files[id].addr
  {
    hide FileId, RootAfter, Interpret, Allocates;
    if before == [] {
      var script := [c] + after;
      assert before + script == script && script[1..] == after;
      NothingRun(dir, t);
      MoverSucceeds(dir, c, t);
      var t1 := After(dir, c, t);
      RootMoves(dir, c, t, root);
      RootKept(dir, after, t1, t1.files[FileId(dir, c.file)].addr);
      InterpretCons(dir, c, after, t);
      AddressStays(dir, after, t1, FileId(dir, c.file));
    } else {
      var d, script := before[0], before + ([c] + after);
      assert script[0] == d && script[1..] == before[1..] + ([c] + after);
      assert before == [d] + before[1..] && script == [d] + script[1..];
      InterpretCons(dir, d, before[1..], t);
      InterpretCons(dir, d, script[1..], t);
      NextOrPanic(dir, d, t);
      RootFound(dir, before[1..], c, after, After(dir, d, t), RootAfter(dir, d, t, root));
    }
  }

  lemma NothingRun(dir: Directory, t: Tables)
    ensures Interpret(dir, [], t) == Loaded(t)
  {
  }

  lemma MoverSucceeds(dir: Directory, c: Command, t: Tables)
    requires MovesRoot(dir, c)
    ensures Succeeds(dir, c, t) && FileId(dir, c.file) in After(dir, c, t).files
  {
    hide FileId, RoundDown, RoundUp;
  }

  /** Comparing the signature with what lies behind a placed file is comparing it with the file. */
  lemma SignatureInMemory(m: seq<byte>, p: nat, data: seq<byte>)
    requires p + |data| <= |m| && p + |RSDP_SIGNATURE| <= |m| && m[p..p + |data|] == data
    requires |data| >= |RSDP_SIGNATURE| || data != RSDP_SIGNATURE[..|data|]
    ensures m[p..p + |RSDP_SIGNATURE|] == RSDP_SIGNATURE <==> HasSignature(data)
  {
    var n := |RSDP_SIGNATURE|;
    if |data| >= n {
      assert m[p..p + n] == data[..n];
    } else {
      assert m[p..p + n][..|data|] == data;
    }
  }

  // ---------- tables.c ----------

  class Loader {
    const dir: Directory
    const mem: array<byte>
    const fileAddress: array<nat>
    const heap: Heap
    var rsdp: nat
    ghost var given: seq<Block>

    constructor (dir: Directory, mem: array<byte>, heap: Heap)
      ensures this.dir == dir && this.mem == mem && this.heap == heap
      ensures fresh(fileAddress) && fileAddress.Length == FILE_COUNT
      ensures forall id | 0 <= id < FILE_COUNT :: fileAddress[id] == 0
      ensures given == []
    {
      this.dir, this.mem, this.heap := dir, mem, heap;
      fileAddress := new nat[FILE_COUNT](_ => 0);
      rsdp := 0;
      given := [];
    }

    ghost predicate Valid()
      reads `given, heap
    {
      && heap.Valid() && fileAddress.Length == FILE_COUNT
      && forall b | b in given :: b in heap.high || b in heap.fseg
    }

    /** Memory, address array and allocators are what the tables say. */
    ghost predicate Represents(t: Tables, m0: seq<byte>)
      reads `given, mem, fileAddress, heap
    {
      && Valid()
      && WellPlaced(dir, t, heap.top0, heap.base0)
      && heap.mallocTop == t.top && heap.fsegBase == t.fseg
      && (forall id | 0 <= id < FILE_COUNT ::
            fileAddress[id] == if id in t.files then t.files[id].addr else 0)
      && Holds(mem[..], t.files)
      && Untouched(m0, mem[..], given) && InGiven(t.files, given)
    }

    lemma FileLength(t: Tables, m0: seq<byte>, id: int)
      requires Represents(t, m0) && id in t.files
      ensures 0 <= id < |dir| && |t.files[id].bytes| == |dir[id].data|
    {
    }

    lemma TopInMemory(t: Tables, m0: seq<byte>)
      requires Represents(t, m0)
      ensures t.top <= t.fseg < WORD && fileAddress.Length == FILE_COUNT
    {
    }

    /** fw_cfg_file_id followed by id_to_addr, for a known name. */
    method AddressOf(name: seq<byte>, ghost t: Tables, ghost m0: seq<byte>) returns (id: int, p: nat)
      requires Represents(t, m0) && IsName(name) && 0 <= FileId(dir, name) < FILE_COUNT
      ensures id == FileId(dir, name)
      ensures p == if id in t.files then t.files[id].addr else 0
      ensures p == 0 <==> id !in t.files
    {
      id := FwCfgFileId(dir, name);
      p := fileAddress[id];
    }

    /** Writing bytes inside a placed file. */
    method StoreInFile(ghost id: int, ghost offset: nat, q: nat, s: seq<byte>, ghost t: Tables, ghost m0: seq<byte>)
      requires Represents(t, m0) && id in t.files && offset + |s| <= |t.files[id].bytes|
      requires q == t.files[id].addr + offset
      modifies mem
      ensures Represents(Edited(t, id, offset, s), m0)
    {
      hide WellPlaced, Holds, Untouched, InGiven;
      ghost var m := mem[..];
      EditPlaced(dir, t, heap.top0, heap.base0, id, offset, s);
      EditHolds(m, t, id, offset, s);
      EditUntouched(m0, m, given, t, id, offset, s);
      EditGiven(t, given, id, offset, s);
      Store(mem, q, s);
    }

    lemma FileInMemory(t: Tables, m0: seq<byte>, id: int, lo: nat, n: nat)
      requires Represents(t, m0) && Has(t, id, lo, n)
      ensures t.files[id].addr + lo + n <= mem.Length
      ensures mem[t.files[id].addr + lo..t.files[id].addr + lo + n] == t.files[id].bytes[lo..lo + n]
    {
      hide WellPlaced, Untouched, InGiven, Valid;
      HoldsAt(mem[..], t, id, lo, n);
      assert mem[..][t.files[id].addr + lo..t.files[id].addr + lo + n] ==
             mem[t.files[id].addr + lo..t.files[id].addr + lo + n];
    }

    /** Filling a new block with the data of file id. */
    method FillFile(id: int, p: nat, ghost b: Block, ghost t: Tables, ghost m0: seq<byte>,
                    ghost given0: seq<Block>)
      requires 0 <= id < FILE_COUNT && id < |dir| && fileAddress.Length == FILE_COUNT
      requires b.start == p > 0 && b.size == |dir[id].data| && p + b.size <= mem.Length
      requires forall i | i in t.files && i != id :: Separate(t.files[i], Placed(p, dir[id].data))
      requires Holds(mem[..], t.files) && Untouched(m0, mem[..], given0) && InGiven(t.files, given0)
      requires forall i | 0 <= i < FILE_COUNT :: fileAddress[i] == if i in t.files then t.files[i].addr else 0
      modifies mem, fileAddress
      ensures var t' := Place(t, id, Placed(p, dir[id].data));
              && Holds(mem[..], t'.files) && Untouched(m0, mem[..], given0 + [b]) && InGiven(t'.files, given0 + [b])
              && fileAddress.Length == FILE_COUNT
              && forall i | 0 <= i < FILE_COUNT :: fileAddress[i] == if i in t'.files then t'.files[i].addr else 0
    {
      hide Holds, Untouched, InGiven;
      ghost var m := mem[..];
      ghost var new' := Placed(p, dir[id].data);
      PlaceHolds(m, t, id, new');
      PlaceUntouched(m0, m, given0, b, dir[id].data);
      PlaceGiven(t, given0, id, new', b);
      fileAddress[id] := p;
      WholeStream(dir[id].data);
      ReadStream(dir[id].data, 0, mem, p, |dir[id].data|);
    }

    /** Getting memory for file id and filling it. */
    method PlaceFile(id: int, n: nat, a: nat, zone: nat, ghost t: Tables, ghost m0: seq<byte>)
      returns (p: nat)
      requires 0 <= id < FILE_COUNT && id < |dir| && n == |dir[id].data| && IsPowerOfTwo(a)
      requires Represents(t, m0) && mem.Length < WORD
      requires if zone == ALLOC_FSEG then t.fseg + a - 1 + n < WORD && RoundUp(t.fseg, a) + n <= mem.Length
               else n <= t.top && 0 < RoundDown(t.top - n, a) <= t.top - n <= mem.Length - n
      modifies `given, heap, mem, fileAddress
      ensures p == if zone == ALLOC_FSEG then RoundUp(t.fseg, a) else RoundDown(t.top - n, a)
      ensures fileAddress.Length == FILE_COUNT && fileAddress[id] == p && p + n <= mem.Length
      ensures Represents(Given(t, zone == ALLOC_FSEG, id, p, dir[id].data), m0)
    {
      hide WellPlaced, Holds, Untouched, InGiven, RoundDown, RoundUp;
      MultipleAbove(t.fseg, a);
      PlacedBounds(dir, t, heap.top0, heap.base0);
      if zone == ALLOC_FSEG {
        p := heap.MallocFsegAlign(n, a);
      } else {
        p := heap.MallocAlign(n, a);
      }
      given := given + [Block(p, n, a)];
      NewPlace(dir, t, heap.top0, heap.base0, id, p, heap.mallocTop, heap.fsegBase);
      FillFile(id, p, Block(p, n, a), t, m0, old(given));
    }

    method DoAlloc(file: seq<byte>, align: nat, zone: nat, ghost t: Tables, ghost m0: seq<byte>)
      returns (ok: bool)
      requires var c := Alloc(file, align, zone);
               CommandOk(dir, c) && Room(dir, [c], t, mem.Length) && Represents(t, m0)
      modifies `given, `rsdp, heap, mem, fileAddress
      ensures ok <==> Succeeds(dir, Alloc(file, align, zone), t)
      ensures Represents(After(dir, Alloc(file, align, zone), t), m0)
      ensures var c := Alloc(file, align, zone);
              SignatureDecided(dir, c) ==> rsdp == RootAfter(dir, c, t, old(rsdp))
    {
      hide Represents, FileId, RoundDown, RoundUp, Succeeds, After, Wanted, AllocAddress, Given;
      ghost var c := Alloc(file, align, zone);
      var id := FwCfgFileId(dir, file);
      var n := FileSize(dir, id);
      if id == -1 {
        AllocPanics(dir, c, t);
        return false;
      }
      AllocFits(dir, c, t, mem.Length);
      TopInMemory(t, m0);
      AllocSucceeds(dir, c, t, id);
      var a := if align < MIN_ALIGN then MIN_ALIGN else align;
      var p := PlaceFile(id, n, a, zone, t, m0);
      if zone == ALLOC_FSEG {
        InFseg(c, id, p, t, m0);
        var differs := MemCmp(mem, p, RSDP_SIGNATURE);
        if differs == 0 {
          rsdp := fileAddress[id];
        }
      }
      return true;
    }

    /** What lies at p once file id has been placed there. */
    lemma InFseg(c: Command, id: int, p: nat, t: Tables, m0: seq<byte>)
      requires c.Alloc? && c.zone == ALLOC_FSEG && id == FileId(dir, c.file) && id != -1 && p == AllocAddress(dir, c, t)
      requires Represents(Given(t, true, id, p, dir[id].data), m0) && p + |RSDP_SIGNATURE| <= mem.Length
      ensures SignatureDecided(dir, c) ==>
                (mem[p..p + |RSDP_SIGNATURE|] == RSDP_SIGNATURE <==> HasSignature(dir[id].data))
    {
      hide FileId, AllocAddress, WellPlaced, Untouched, InGiven, Valid;
      var t', n := Given(t, true, id, p, dir[id].data), |dir[id].data|;
      FileInMemory(t', m0, id, 0, n);
      assert mem[p..p + n] == mem[..][p..p + n] && dir[id].data[0..n] == dir[id].data;
      assert mem[p..p + |RSDP_SIGNATURE|] == mem[..][p..p + |RSDP_SIGNATURE|];
      if SignatureDecided(dir, c) {
        SignatureInMemory(mem[..], p, dir[id].data);
      }
    }

    method DoPtr(dest: seq<byte>, src: seq<byte>, offset: nat, size: nat, ghost t: Tables, ghost m0: seq<byte>)
      returns (ok: bool)
      requires CommandOk(dir, Ptr(dest, src, offset, size)) && Represents(t, m0)
      modifies mem
      ensures ok <==> Succeeds(dir, Ptr(dest, src, offset, size), t)
      ensures Represents(After(dir, Ptr(dest, src, offset, size), t), m0)
    {
      hide Represents, FileId, FromLE, ToLE, Cut, Succeeds, After, Edited, Place;
      ghost var c := Ptr(dest, src, offset, size);
      var from, p := AddressOf(src, t, m0);
      if p == 0 {
        PtrPanics(dir, c, t);
        return false;
      }
      var to, q := AddressOf(dest, t, m0);
      if q == 0 {
        PtrPanics(dir, c, t);
        return false;
      }
      q := q + offset;
      FileLength(t, m0, to);
      FileInMemory(t, m0, to, offset, size);
      PtrSucceeds(dir, c, t, from, to);
      var ll := FromLE(mem[q..q + size]);
      ll := Cut(ll + p, 8);
      StoreInFile(to, offset, q, ToLE(ll, size), t, m0);
      return true;
    }

    method DoChecksum(file: seq<byte>, offset: nat, start: nat, len: nat, ghost t: Tables, ghost m0: seq<byte>)
      returns (ok: bool)
      requires CommandOk(dir, Checksum(file, offset, start, len)) && Represents(t, m0)
      modifies mem
      ensures ok <==> Succeeds(dir, Checksum(file, offset, start, len), t)
      ensures Represents(After(dir, Checksum(file, offset, start, len), t), m0)
    {
      hide Represents, FileId, Sum, Succeeds, After, Edited, Place;
      ghost var c := Checksum(file, offset, start, len);
      var id, p := AddressOf(file, t, m0);
      if p == 0 {
        ChecksumPanics(dir, c, t);
        return false;
      }
      FileLength(t, m0, id);
      var n := FileSize(dir, id);
      if offset >= n || n < start || len > n - start {
        ChecksumPanics(dir, c, t);
        return false;
      }
      FileInMemory(t, m0, id, start, len);
      FileInMemory(t, m0, id, offset, 1);
      ChecksumSucceeds(dir, c, t, id);
      var sum := Csum8(mem, p + start, len);
      var x: byte := (mem[p + offset] as int - sum) % 256;
      ghost var b := t.files[id].bytes;
      assert mem[p + offset] == mem[p + offset..p + offset + 1][0] == b[offset..offset + 1][0];
      assert [x] == [(b[offset] - Sum(b[start..start + len]) % 256) % 256];
      StoreInFile(id, offset, p + offset, [x], t, m0);
      return true;
    }

    method DoCommand(c: Command, ghost t: Tables, ghost m0: seq<byte>) returns (ok: bool)
      requires !c.Quit? && CommandOk(dir, c) && Room(dir, [c], t, mem.Length) && Represents(t, m0)
      modifies `given, `rsdp, heap, mem, fileAddress
      ensures ok <==> Succeeds(dir, c, t)
      ensures Represents(After(dir, c, t), m0)
      ensures SignatureDecided(dir, c) ==> rsdp == RootAfter(dir, c, t, old(rsdp))
    {
      hide Represents, CommandOk, Room, FileId;
      match c {
        case Alloc(file, align, zone) => ok := DoAlloc(file, align, zone, t, m0);
        case Ptr(dest, src, offset, size) => ok := DoPtr(dest, src, offset, size, t, m0);
        case Checksum(file, offset, start, len) => ok := DoChecksum(file, offset, start, len, t, m0);
        case Unknown => ok := false;
      }
    }

    /** The tables before anything has been loaded. */
    ghost function Initial(): Tables
      reads heap
    {
      Tables(map[], heap.mallocTop, heap.fsegBase)
    }

    lemma InitiallyNothing(m0: seq<byte>)
      requires Valid() && heap.mallocTop > 0 && mem[..] == m0 && given == []
      requires forall id | 0 <= id < FILE_COUNT :: fileAddress[id] == 0
      ensures Represents(Initial(), m0)
    {
    }

    lemma ScriptWritten()
      ensures var id := FileId(dir, LOADER_NAME);
              if id == -1 then LoaderScript(dir) == [] else WrittenAs(dir[id].data, LoaderScript(dir))
    {
      hide FileId, DecodeAll, WrittenAs;
      var id := FileId(dir, LOADER_NAME);
      if id != -1 {
        WrittenIsDecoded(dir[id].data, DecodeAll(dir[id].data));
      }
    }

    lemma NoScript(t: Tables, root: nat)
      ensures RootOf(dir, [], t, root) == root && Interpret(dir, [], t) == Loaded(t)
    {
    }

    /** The whole of extract_acpi; false stands for a panic. Memory ends up holding what the
        script means, and is untouched outside the blocks the script allocated. The script is the one
        that the file writes down, whatever is in its padding. */
    method ExtractAcpi() returns (ok: bool, ghost script: seq<Command>)
      requires Valid() && heap.mallocTop > 0 && given == []
      requires forall id | 0 <= id < FILE_COUNT :: fileAddress[id] == 0
      requires var script := LoaderScript(dir);
               && FileSize(dir, FileId(dir, LOADER_NAME)) % RECORD_SIZE == 0
               && ScriptOk(dir, script) && Room(dir, script, Initial(), mem.Length)
      modifies `given, `rsdp, heap, mem, fileAddress
      ensures var id := FileId(dir, LOADER_NAME);
              if id == -1 then script == [] else WrittenAs(dir[id].data, script)
      ensures var r := Interpret(dir, script, old(Initial()));
              ok == r.Loaded? && Represents(r.t, old(mem[..]))
      ensures AllDecided(dir, script) ==> rsdp == RootOf(dir, script, old(Initial()), old(rsdp))
    {
      hide Represents, Room, ScriptOk, FileId, Execute, Decode, Interpret, SignatureDecided, AllDecided, WrittenAs,
        RootOf, RootAfter, Succeeds, After;
      ghost var m0, t := mem[..], Initial();
      script := LoaderScript(dir);
      ScriptWritten();
      InitiallyNothing(m0);
      var id := FwCfgFileId(dir, LOADER_NAME);
      var n := FileSize(dir, id);
      if n == 0 {
        assert LoaderScript(dir) == [];
        NoScript(Initial(), rsdp);
        return true, script;
      }
      var data := Stream(dir[id].data, 0, n);
      WholeStream(dir[id].data);
      var i := 0;
      assert script[0..] == script;
      while i < n / RECORD_SIZE
        invariant 0 <= i <= n / RECORD_SIZE == |script|
        invariant Represents(t, m0)
        invariant ScriptOk(dir, script[i..]) && Room(dir, script[i..], t, mem.Length)
        invariant Interpret(dir, script, old(Initial())) == Interpret(dir, script[i..], t)
        invariant AllDecided(dir, script) ==>
                    RootOf(dir, script, old(Initial()), old(rsdp)) == RootOf(dir, script[i..], t, rsdp)
      {
        RecordBounds(i, n);
        var c := Decode(data[i * RECORD_SIZE..(i + 1) * RECORD_SIZE]);
        assert script[i..][0] == script[i] == c && script[i..][1..] == script[i + 1..];
        RootStep(dir, script[i..], t, rsdp);
        DecidedAt(dir, script, i);
        if c == Quit {
          QuitStops(dir, script[i..], t);
          return true, script;
        }
        TopInMemory(t, m0);
        NextCommand(dir, script[i..], t, mem.Length);
        ok := DoCommand(c, t, m0);
        if !ok {
          return false, script;
        }
        t := After(dir, c, t);
        i := i + 1;
      }
      assert script[i..] == [];
      NoScript(t, rsdp);
      return true, script;
    }
  }
}
