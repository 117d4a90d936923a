/** The table-loader script of tables.c: what its commands mean, on values. `AcpiLoader` runs the
    same script over memory. */
module AcpiScript {
  import opened Bytes
  import opened StringLib
  import opened Malloc
  import opened FwCfg

  const RECORD_SIZE: nat := 128
  const MIN_ALIGN: nat := 16
  const ALLOC_FSEG: nat := 2

  datatype Command =
    | Alloc(file: seq<byte>, align: nat, zone: nat)
    | Ptr(dest: seq<byte>, src: seq<byte>, offset: nat, size: nat)
    | Checksum(file: seq<byte>, offset: nat, start: nat, len: nat)
    | Quit
    | Unknown

  /** The packed 128-byte record. */
  function Decode(r: seq<byte>): Command
    requires |r| == RECORD_SIZE
  {
    match FromLE(r[0..4])
    case 0 => Quit
    case 1 => Alloc(r[4..60], FromLE(r[60..64]), r[64])
    case 2 => Ptr(r[4..60], r[60..116], FromLE(r[116..120]), r[120])
    case 3 => Checksum(r[4..60], FromLE(r[60..64]), FromLE(r[64..68]), FromLE(r[68..72]))
    case _ => Unknown
  }

  function DecodeAll(script: seq<byte>): seq<Command> {
    seq(|script| / RECORD_SIZE, i requires 0 <= i < |script| / RECORD_SIZE =>
      Decode(script[i * RECORD_SIZE..(i + 1) * RECORD_SIZE]))
  }

  // ---------- how a script is written ----------

  /** What the fields of the packed record can hold. */
  predicate Writable(c: Command) {
    match c
    case Alloc(file, align, zone) => |file| == 56 && align < WORD && zone < 256
    case Ptr(dest, src, offset, size) => |dest| == |src| == 56 && offset < WORD && size < 256
    case Checksum(file, offset, start, len) => |file| == 56 && offset < WORD && start < WORD && len < WORD
    case Quit => true
    case Unknown => true
  }

  /** The fields of struct loader_cmd in the order in which they are declared, without the padding. */
  function Fields(c: Command): seq<byte>
    requires Writable(c)
  {
    match c
    case Quit => ToLE(0, 4)
    case Alloc(file, align, zone) => ToLE(1, 4) + file + ToLE(align, 4) + [zone]
    case Ptr(dest, src, offset, size) => ToLE(2, 4) + dest + src + ToLE(offset, 4) + [size]
    case Checksum(file, offset, start, len) => ToLE(3, 4) + file + ToLE(offset, 4) + ToLE(start, 4) + ToLE(len, 4)
    case Unknown => []
  }

  /** A record of 128 bytes writes down a command: its fields come first, followed by anything. Every
      other command number is an unknown one. */
  predicate Records(r: seq<byte>, c: Command) {
    && |r| == 128 && Writable(c)
    && if c.Unknown? then FromLE(r[..4]) > 3 else Fields(c) <= r
  }

  lemma FieldAt(a: seq<byte>, b: seq<byte>, r: seq<byte>, lo: nat, hi: nat)
    requires lo == |a| && hi == lo + |b| && a + b <= r
    ensures r[lo..hi] == b
  {
    assert r[lo..hi] == r[..hi][lo..hi] && r[..hi] == a + b;
  }

  lemma NumberIn(a: seq<byte>, v: nat, r: seq<byte>, lo: nat)
    requires lo == |a| && a + ToLE(v, 4) <= r && v < WORD
    ensures FromLE(r[lo..lo + 4]) == v
  {
    hide ToLE, FromLE, Pow256;
    FieldAt(a, ToLE(v, 4), r, lo, lo + 4);
    FromToLE(v, 4);
    FourBytes();
    SmallMod(v, WORD);
  }

  lemma PrefixPrefix(a: seq<byte>, b: seq<byte>, r: seq<byte>)
    requires a + b <= r
    ensures a <= r
  {
    assert a == (a + b)[..|a|] == r[..|a|];
  }

  lemma AllocReads(r: seq<byte>, file: seq<byte>, align: nat, zone: byte)
    requires |r| == RECORD_SIZE && |file| == NAME_SIZE && align < WORD
    requires ToLE(1, 4) + file + ToLE(align, 4) + [zone] <= r
    ensures Decode(r) == Alloc(file, align, zone)
  {
    hide ToLE, FromLE, Pow256;
    var a, b := ToLE(1, 4), ToLE(1, 4) + file;
    var d := b + ToLE(align, 4);
    PrefixPrefix(d, [zone], r);
    PrefixPrefix(b, ToLE(align, 4), r);
    PrefixPrefix(a, file, r);
    assert [] + a == a;
    NumberIn([], 1, r, 0);
    FieldAt(a, file, r, 4, 60);
    NumberIn(b, align, r, 60);
    FieldAt(d, [zone], r, 64, 65);
    assert r[64..65][0] == zone;
  }

  lemma PtrReads(r: seq<byte>, dest: seq<byte>, src: seq<byte>, offset: nat, size: byte)
    requires |r| == RECORD_SIZE && |dest| == |src| == NAME_SIZE && offset < WORD
    requires ToLE(2, 4) + dest + src + ToLE(offset, 4) + [size] <= r
    ensures Decode(r) == Ptr(dest, src, offset, size)
  {
    hide ToLE, FromLE, Pow256;
    var a, b := ToLE(2, 4), ToLE(2, 4) + dest;
    var d := b + src;
    var f := d + ToLE(offset, 4);
    PrefixPrefix(f, [size], r);
    PrefixPrefix(d, ToLE(offset, 4), r);
    PrefixPrefix(b, src, r);
    PrefixPrefix(a, dest, r);
    assert [] + a == a;
    NumberIn([], 2, r, 0);
    FieldAt(a, dest, r, 4, 60);
    FieldAt(b, src, r, 60, 116);
    NumberIn(d, offset, r, 116);
    FieldAt(f, [size], r, 120, 121);
    assert r[120..121][0] == size;
  }

  lemma ChecksumReads(r: seq<byte>, file: seq<byte>, offset: nat, start: nat, len: nat)
    requires |r| == RECORD_SIZE && |file| == NAME_SIZE && offset < WORD && start < WORD && len < WORD
    requires ToLE(3, 4) + file + ToLE(offset, 4) + ToLE(start, 4) + ToLE(len, 4) <= r
    ensures Decode(r) == Checksum(file, offset, start, len)
  {
    hide ToLE, FromLE, Pow256;
    var a, b := ToLE(3, 4), ToLE(3, 4) + file;
    var d := b + ToLE(offset, 4);
    var f := d + ToLE(start, 4);
    PrefixPrefix(f, ToLE(len, 4), r);
    PrefixPrefix(d, ToLE(start, 4), r);
    PrefixPrefix(b, ToLE(offset, 4), r);
    PrefixPrefix(a, file, r);
    assert [] + a == a;
    NumberIn([], 3, r, 0);
    FieldAt(a, file, r, 4, 60);
    NumberIn(b, offset, r, 60);
    NumberIn(d, start, r, 64);
    NumberIn(f, len, r, 68);
  }

  /** Decoding reads back what was written. */
  lemma DecodeReads(r: seq<byte>, c: Command)
    requires Records(r, c)
    ensures Decode(r) == c
  {
    hide ToLE, FromLE;
    match c {
      case Unknown =>
        assert r[0..4] == r[..4];
      case Quit =>
        assert [] + ToLE(0, 4) == ToLE(0, 4);
        NumberIn([], 0, r, 0);
      case Alloc(file, align, zone) => AllocReads(r, file, align, zone);
      case Ptr(dest, src, offset, size) => PtrReads(r, dest, src, offset, size);
      case Checksum(file, offset, start, len) => ChecksumReads(r, file, offset, start, len);
    }
  }

  lemma WordFrom(b: seq<byte>)
    requires |b| == 4
    ensures FromLE(b) < WORD && ToLE(FromLE(b), 4) == b
  {
    hide ToLE, FromLE, Pow256;
    FromLEBound(b);
    ToFromLE(b);
    FourBytes();
  }

  /** And every record writes down the command that decoding reads, so it does so for no other. */
  lemma RecordsDecoded(r: seq<byte>)
    requires |r| == RECORD_SIZE
    ensures Records(r, Decode(r))
  {
    hide ToLE, FromLE;
    WordFrom(r[0..4]);
    WordFrom(r[60..64]);
    WordFrom(r[64..68]);
    WordFrom(r[68..72]);
    WordFrom(r[116..120]);
    assert r[0..4] == r[..4];
    match Decode(r) {
      case Quit =>
      case Unknown =>
      case Alloc(_, _, _) => assert r[..65] == r[0..4] + r[4..60] + r[60..64] + [r[64]];
      case Ptr(_, _, _, _) => assert r[..121] == r[0..4] + r[4..60] + r[60..116] + r[116..120] + [r[120]];
      case Checksum(_, _, _, _) => assert r[..72] == r[0..4] + r[4..60] + r[60..64] + r[64..68] + r[68..72];
    }
  }

  /** The bytes of a script file, record by record. */
  predicate WrittenAs(data: seq<byte>, script: seq<Command>) {
    && |script| == |data| / 128
    && forall i {:trigger script[i]} | 0 <= i < |script| :: Records(Record(data, i), script[i])
  }

  function Record(data: seq<byte>, i: nat): seq<byte> {
    if (i + 1) * 128 <= |data| then data[i * 128..(i + 1) * 128] else []
  }

  /** A script file holds exactly one script, the decoded one. */
  lemma WrittenIsDecoded(data: seq<byte>, script: seq<Command>)
    ensures WrittenAs(data, script) <==> script == DecodeAll(data)
  {
    hide Records, Decode;
    forall i | 0 <= i < |data| / RECORD_SIZE ensures Records(Record(data, i), DecodeAll(data)[i]) {
      RecordInside(i, |data|);
      RecordsDecoded(Record(data, i));
    }
    if WrittenAs(data, script) {
      forall i | 0 <= i < |script| ensures script[i] == DecodeAll(data)[i] {
        RecordInside(i, |data|);
        DecodeReads(Record(data, i), script[i]);
      }
    }
  }

  lemma RecordInside(i: nat, n: nat)
    requires i < n / RECORD_SIZE
    ensures (i + 1) * RECORD_SIZE <= n && (i + 1) * RECORD_SIZE - i * RECORD_SIZE == RECORD_SIZE
  {
  }

  /** Records put behind each other write down the commands in order. */
  function Joined(rs: seq<seq<byte>>): seq<byte> {
    if rs == [] then [] else Joined(rs[..|rs| - 1]) + rs[|rs| - 1]
  }

  lemma {:induction false} JoinedRecords(rs: seq<seq<byte>>, script: seq<Command>)
    requires |rs| == |script| && forall i {:trigger rs[i]} | 0 <= i < |rs| :: Records(rs[i], script[i])
    ensures |Joined(rs)| == 128 * |rs| && DecodeAll(Joined(rs)) == script
  {
    hide Decode, Records;
    if rs == [] {
      assert DecodeAll([]) == [];
    } else {
      var n := |rs| - 1;
      JoinedRecords(rs[..n], script[..n]);
      var a, r := Joined(rs[..n]), rs[n];
      RecordLength(r, script[n]);
      DecodeReads(r, script[n]);
      DecodeMore(a, r, n);
    }
  }

  lemma RecordLength(r: seq<byte>, c: Command)
    requires Records(r, c)
    ensures |r| == RECORD_SIZE
  {
    hide Fields, Writable;
  }

  lemma DecodeMore(a: seq<byte>, r: seq<byte>, n: nat)
    requires |a| == RECORD_SIZE * n && |r| == RECORD_SIZE
    ensures DecodeAll(a + r) == DecodeAll(a) + [Decode(r)]
  {
    hide Decode;
    var b := a + r;
    assert |b| / RECORD_SIZE == n + 1 && |a| / RECORD_SIZE == n;
    assert b[n * RECORD_SIZE..(n + 1) * RECORD_SIZE] == r;
    forall i | 0 <= i < n ensures DecodeAll(b)[i] == DecodeAll(a)[i] {
      assert b[i * RECORD_SIZE..(i + 1) * RECORD_SIZE] == a[i * RECORD_SIZE..(i + 1) * RECORD_SIZE];
    }
  }

  /** A file that has been given memory, and what that memory holds. */
  datatype Placed = Placed(addr: nat, bytes: seq<byte>)

  datatype Tables = Tables(files: map<int, Placed>, top: nat, fseg: nat)

  datatype Step = Next(t: Tables) | Stop | Panic

  datatype Outcome = Loaded(t: Tables) | Panicked(t: Tables)

  function AlignOf(c: Command): nat
    requires c.Alloc?
    ensures AlignOf(c) >= MIN_ALIGN
  {
    if c.align < MIN_ALIGN then MIN_ALIGN else c.align
  }

  /** b as a little-endian number, increased by x, cut to its own width. */
  function AddLE(b: seq<byte>, x: nat): (r: seq<byte>)
    ensures |r| == |b|
  {
    ToLE(FromLE(b) + x, |b|)
  }

  function Relocated(b: seq<byte>, offset: nat, size: nat, x: nat): (r: seq<byte>)
    ensures |r| == |b|
  {
    if offset + size <= |b| then Patch(b, offset, AddLE(b[offset..offset + size], x)) else b
  }

  function StepAlloc(dir: Directory, c: Command, t: Tables): Step
    requires c.Alloc?
  {
    var id := FileId(dir, c.file);
    if id == -1 then Panic
    else
      var data := dir[id].data;
      if c.zone == ALLOC_FSEG then
        var p := RoundUp(t.fseg, AlignOf(c));
        Next(t.(files := t.files[id := Placed(p, data)], fseg := p + |data|))
      else
        var p := RoundDown((t.top - |data|) % WORD, AlignOf(c));
        Next(t.(files := t.files[id := Placed(p, data)], top := p))
  }

  function StepPtr(dir: Directory, c: Command, t: Tables): Step
    requires c.Ptr?
  {
    var from, to := FileId(dir, c.src), FileId(dir, c.dest);
    if from !in t.files || to !in t.files then Panic
    else Next(t.(files := t.files[to := t.files[to].(
                bytes := Relocated(t.files[to].bytes, c.offset, c.size, t.files[from].addr))]))
  }

  function StepChecksum(dir: Directory, c: Command, t: Tables): Step
    requires c.Checksum?
  {
    var id := FileId(dir, c.file);
    if id !in t.files then Panic
    else
      var b := t.files[id].bytes;
      if c.offset >= |b| || c.start + c.len > |b| then Panic
      else Next(t.(files := t.files[id := t.files[id].(
                  bytes := Checksummed(b, c.offset, c.start, c.len))]))
  }

  function Execute(dir: Directory, c: Command, t: Tables): Step {
    match c
    case Alloc(_, _, _) => StepAlloc(dir, c, t)
    case Ptr(_, _, _, _) => StepPtr(dir, c, t)
    case Checksum(_, _, _, _) => StepChecksum(dir, c, t)
    case Quit => Stop
    case Unknown => Panic
  }

  function Interpret(dir: Directory, script: seq<Command>, t: Tables): Outcome {
    if script == [] then Loaded(t)
    else
      match Execute(dir, script[0], t)
      case Next(t') => Interpret(dir, script[1..], t')
      case Stop => Loaded(t)
      case Panic => Panicked(t)
  }

  // ---------- running a script in parts ----------

  lemma {:induction false} InterpretParts(dir: Directory, a: seq<Command>, b: seq<Command>, t: Tables)
    requires Quit !in a
    ensures Interpret(dir, a + b, t) ==
            match Interpret(dir, a, t) { case Loaded(t') => Interpret(dir, b, t') case Panicked(t') => Panicked(t') }
  {
    if a == [] {
      assert a + b == b;
    } else {
      assert (a + b)[1..] == a[1..] + b;
      var s := Execute(dir, a[0], t);
      if s.Next? {
        InterpretParts(dir, a[1..], b, s.t);
      }
    }
  }

  /** Nothing after the first QUIT has an effect. */
  lemma {:induction false} QuitEnds(dir: Directory, a: seq<Command>, b: seq<Command>, t: Tables)
    ensures Interpret(dir, a + [Quit] + b, t) == Interpret(dir, a, t)
  {
    if a == [] {
      assert (a + [Quit] + b)[0] == Quit;
    } else {
      assert (a + [Quit] + b)[1..] == a[1..] + [Quit] + b;
      var s := Execute(dir, a[0], t);
      if s.Next? {
        QuitEnds(dir, a[1..], b, s.t);
      }
    }
  }

  // ---------- checksums ----------

  /** Whether a command can change one of the n bytes from lo on in file id. */
  predicate Writes(dir: Directory, c: Command, id: int, lo: nat, n: nat) {
    match c
    case Alloc(file, _, _) => FileId(dir, file) == id
    case Ptr(dest, _, offset, size) => FileId(dir, dest) == id && offset < lo + n && lo < offset + size
    case Checksum(file, offset, _, _) => FileId(dir, file) == id && lo <= offset < lo + n
    case _ => false
  }

  /** File id has been placed and is long enough to have n bytes from lo on. */
  predicate Has(t: Tables, id: int, lo: nat, n: nat) {
    id in t.files && lo + n <= |t.files[id].bytes|
  }

  /** Those bytes. */
  function Window(t: Tables, id: int, lo: nat, n: nat): seq<byte> {
    if Has(t, id, lo, n) then t.files[id].bytes[lo..lo + n] else []
  }

  lemma StepLeaves(dir: Directory, c: Command, t: Tables, id: int, lo: nat, n: nat)
    requires Has(t, id, lo, n) && !Writes(dir, c, id, lo, n) && Execute(dir, c, t).Next?
    ensures Has(Execute(dir, c, t).t, id, lo, n)
    ensures Window(Execute(dir, c, t).t, id, lo, n) == Window(t, id, lo, n)
  {
    hide Relocated, Checksummed, FileId, RoundDown, RoundUp;
    var b := t.files[id].bytes;
    if c.Ptr? {
      var x := t.files[FileId(dir, c.src)].addr;
      if FileId(dir, c.dest) == id {
        RelocatedElsewhere(b, c.offset, c.size, x, lo, n);
      }
    } else if c.Checksum? && FileId(dir, c.file) == id {
      ChecksummedElsewhere(b, c.offset, c.start, c.len, lo, n);
    }
  }

  lemma RelocatedElsewhere(b: seq<byte>, offset: nat, size: nat, x: nat, lo: nat, n: nat)
    requires lo + n <= |b| && !(offset < lo + n && lo < offset + size)
    ensures Relocated(b, offset, size, x)[lo..lo + n] == b[lo..lo + n]
  {
    hide AddLE;
  }

  lemma {:induction false} ScriptLeaves(dir: Directory, script: seq<Command>, t: Tables, id: int, lo: nat, n: nat)
    requires Has(t, id, lo, n) && forall c | c in script :: !Writes(dir, c, id, lo, n)
    ensures Has(Interpret(dir, script, t).t, id, lo, n)
    ensures Window(Interpret(dir, script, t).t, id, lo, n) == Window(t, id, lo, n)
  {
    hide Has, Window, Writes, Execute;
    if script != [] {
      var s := Execute(dir, script[0], t);
      if s.Next? {
        StepLeaves(dir, script[0], t, id, lo, n);
        ScriptLeaves(dir, script[1..], s.t, id, lo, n);
      }
    }
  }

  lemma StepZeroes(dir: Directory, c: Command, t: Tables)
    requires c.Checksum? && c.start <= c.offset < c.start + c.len && Execute(dir, c, t).Next?
    ensures Has(Execute(dir, c, t).t, FileId(dir, c.file), c.start, c.len)
    ensures Sum(Window(Execute(dir, c, t).t, FileId(dir, c.file), c.start, c.len)) % 256 == 0
  {
    hide Checksummed, Sum;
    var id := FileId(dir, c.file);
    ChecksumZeroes(t.files[id].bytes, c.offset, c.start, c.len);
  }

  lemma InterpretOne(dir: Directory, c: Command, t: Tables)
    requires !c.Quit?
    ensures var s := Execute(dir, c, t);
            Interpret(dir, [c], t) == if s.Next? then Loaded(s.t) else Panicked(t)
  {
    assert [c][1..] == [];
    var s := Execute(dir, c, t);
    assert s.Next? ==> Interpret(dir, [], s.t) == Loaded(s.t);
  }

  /** In any script that completes, a checksum command that corrects a byte of its own range
      leaves the range summing to zero at the end, unless a later command writes into it. */
  lemma ChecksumHoldsAtEnd(dir: Directory, before: seq<Command>, c: Command, after: seq<Command>, t: Tables)
    requires c.Checksum? && c.start <= c.offset < c.start + c.len
    requires Quit !in before && Interpret(dir, before + [c], t).Loaded?
    requires forall d | d in after :: !Writes(dir, d, FileId(dir, c.file), c.start, c.len)
    ensures Has(Interpret(dir, before + [c] + after, t).t, FileId(dir, c.file), c.start, c.len)
    ensures Sum(Window(Interpret(dir, before + [c] + after, t).t, FileId(dir, c.file), c.start, c.len)) % 256 == 0
  {
    hide Has, Window, Writes, Sum, Interpret;
    InterpretParts(dir, before, [c], t);
    var t1 := Interpret(dir, before, t).t;
    InterpretOne(dir, c, t1);
    StepZeroes(dir, c, t1);
    InterpretParts(dir, before + [c], after, t);
    ScriptLeaves(dir, after, Execute(dir, c, t1).t, FileId(dir, c.file), c.start, c.len);
  }

  // ---------- relocations ----------

  lemma AddTwice(b: seq<byte>, x: nat, y: nat)
    ensures AddLE(AddLE(b, x), y) == AddLE(b, x + y)
  {
    hide FromLE, ToLE, Cut, Pow256;
    var v := FromLE(b);
    FromToLE(v + x, |b|);
    ToLEMod(Cut(v + x, |b|) + y, |b|, |b|);
    ToLEMod(v + x + y, |b|, |b|);
    CutSum(v + x, y, |b|);
  }

  lemma AddValue(b: seq<byte>, x: nat)
    ensures FromLE(AddLE(b, x)) == Cut(FromLE(b) + x, |b|)
  {
    hide FromLE, ToLE, Cut, Pow256;
    FromToLE(FromLE(b) + x, |b|);
  }

  predicate SameField(dir: Directory, c: Command, id: int, offset: nat, size: nat) {
    c.Ptr? && FileId(dir, c.dest) == id && c.offset == offset && c.size == size
  }

  /** The addresses that a script adds to one field, while it runs. */
  ghost function Added(dir: Directory, script: seq<Command>, t: Tables, id: int, offset: nat, size: nat): nat {
    if script == [] then 0
    else
      match Execute(dir, script[0], t)
      case Next(t') =>
        AddedNow(dir, script[0], t, id, offset, size) + Added(dir, script[1..], t', id, offset, size)
      case _ => 0
  }

  /** What one command adds to a field. */
  function AddedNow(dir: Directory, c: Command, t: Tables, id: int, offset: nat, size: nat): nat {
    if SameField(dir, c, id, offset, size) && FileId(dir, c.src) in t.files
    then t.files[FileId(dir, c.src)].addr else 0
  }

  lemma StepRelocates(dir: Directory, c: Command, t: Tables, id: int, offset: nat, size: nat)
    requires Has(t, id, offset, size) && Execute(dir, c, t).Next?
    requires SameField(dir, c, id, offset, size) || !Writes(dir, c, id, offset, size)
    ensures Has(Execute(dir, c, t).t, id, offset, size)
    ensures FromLE(Window(Execute(dir, c, t).t, id, offset, size)) ==
            Cut(FromLE(Window(t, id, offset, size)) + AddedNow(dir, c, t, id, offset, size), size)
  {
    hide FromLE, Cut, Pow256, Window, Has, Execute, AddLE;
    var field := Window(t, id, offset, size);
    WindowLength(t, id, offset, size);
    if SameField(dir, c, id, offset, size) {
      StepAdds(dir, c, t);
      AddValue(field, t.files[FileId(dir, c.src)].addr);
    } else {
      StepLeaves(dir, c, t, id, offset, size);
      FromLEBound(field);
    }
  }

  lemma StepAdds(dir: Directory, c: Command, t: Tables)
    requires c.Ptr? && Execute(dir, c, t).Next? && Has(t, FileId(dir, c.dest), c.offset, c.size)
    ensures FileId(dir, c.src) in t.files
    ensures Has(Execute(dir, c, t).t, FileId(dir, c.dest), c.offset, c.size)
    ensures Window(Execute(dir, c, t).t, FileId(dir, c.dest), c.offset, c.size) ==
            AddLE(Window(t, FileId(dir, c.dest), c.offset, c.size), t.files[FileId(dir, c.src)].addr)
  {
    hide AddLE;
  }

  lemma WindowLength(t: Tables, id: int, lo: nat, n: nat)
    requires Has(t, id, lo, n)
    ensures |Window(t, id, lo, n)| == n
  {
  }

  /** Whatever else a script does, a field that only relocations aimed at it write ends up as its
      old value plus all the addresses added to it, modulo the width of the field. */
  lemma {:induction false} FieldIsRelocated(dir: Directory, script: seq<Command>, t: Tables,
                                            id: int, offset: nat, size: nat)
    requires Has(t, id, offset, size)
    requires forall c | c in script :: SameField(dir, c, id, offset, size) || !Writes(dir, c, id, offset, size)
    ensures Has(Interpret(dir, script, t).t, id, offset, size)
    ensures FromLE(Window(Interpret(dir, script, t).t, id, offset, size)) ==
            Cut(FromLE(Window(t, id, offset, size)) + Added(dir, script, t, id, offset, size), size)
  {
    hide FromLE, Cut, Pow256, Execute, Writes, SameField, AddedNow, Has, Window;
    hide Interpret, Added;
    WindowLength(t, id, offset, size);
    FromLEBound(Window(t, id, offset, size));
    UnfoldRun(dir, script, t, id, offset, size);
    if script != [] {
      var s := Execute(dir, script[0], t);
      if s.Next? {
        StepRelocates(dir, script[0], t, id, offset, size);
        FieldIsRelocated(dir, script[1..], s.t, id, offset, size);
        CutSum(FromLE(Window(t, id, offset, size)) + AddedNow(dir, script[0], t, id, offset, size),
               Added(dir, script[1..], s.t, id, offset, size), size);
      }
    }
  }

  lemma UnfoldRun(dir: Directory, script: seq<Command>, t: Tables, id: int, offset: nat, size: nat)
    ensures script != [] && Execute(dir, script[0], t).Next? ==>
              var t' := Execute(dir, script[0], t).t;
              && Interpret(dir, script, t) == Interpret(dir, script[1..], t')
              && Added(dir, script, t, id, offset, size) ==
                 AddedNow(dir, script[0], t, id, offset, size) + Added(dir, script[1..], t', id, offset, size)
    ensures script == [] || !Execute(dir, script[0], t).Next? ==>
              Interpret(dir, script, t).t == t && Added(dir, script, t, id, offset, size) == 0
  {
    hide Execute, AddedNow;
  }

  // ---------- when a command panics ----------

  /** An allocation needs its file, a pointer memory for both files, a checksum a range and a byte inside
      its file; QUIT stops and anything else panics. */
  lemma CommandOutcome(dir: Directory, c: Command, t: Tables)
    ensures var s := Execute(dir, c, t);
            match c
            case Alloc(file, _, _) => s.Next? <==> exists id: nat :: id < |dir| && Matches(file, dir[id].name)
            case Ptr(dest, src, _, _) => s.Next? <==> {FileId(dir, dest), FileId(dir, src)} <= t.files.Keys
            case Checksum(file, offset, start, len) =>
              var id := FileId(dir, file);
              s.Next? <==> id in t.files && offset < |t.files[id].bytes| && start + len <= |t.files[id].bytes|
            case Quit => s == Stop
            case Unknown => s == Panic
    ensures !c.Quit? && !Execute(dir, c, t).Next? ==> Execute(dir, c, t) == Panic
  {
    hide Matches, RoundDown, RoundUp, Relocated, Checksummed;
    if c.Alloc? {
      FileIdIsFirst(dir, c.file, FileId(dir, c.file));
    }
  }

  // ---------- whole scripts ----------

  /** Where an allocation puts a file: zone 2 lies upwards of the F-segment pointer, any other zone below
      the top, at a multiple of the alignment asked for, which is 16 at least. */
  lemma AllocPlaces(dir: Directory, c: Command, t: Tables)
    requires c.Alloc? && FileId(dir, c.file) != -1 && t.top < WORD
    ensures var s, data := Execute(dir, c, t), dir[FileId(dir, c.file)].data;
            && s.Next? && FileId(dir, c.file) in s.t.files
            && var p := s.t.files[FileId(dir, c.file)];
            && p.bytes == data && p.addr % (if c.align < 16 then 16 else c.align) == 0
            && (c.zone == 2 ==> t.fseg <= p.addr && s.t.fseg == p.addr + |data| && s.t.top == t.top)
            && (c.zone != 2 && |data| <= t.top ==>
                  p.addr + |data| <= t.top && s.t.top == p.addr && s.t.fseg == t.fseg)
  {
    hide FileId, RoundDown, RoundUp;
    var n := |dir[FileId(dir, c.file)].data|;
    MultipleAbove(t.fseg, AlignOf(c));
    MultipleAbove((t.top - n) % WORD, AlignOf(c));
    if n <= t.top {
      SmallMod(t.top - n, WORD);
    }
  }

  lemma AllocHolds(dir: Directory, c: Command, t: Tables, lo: nat, n: nat)
    requires c.Alloc? && FileId(dir, c.file) != -1 && lo + n <= |dir[FileId(dir, c.file)].data|
    ensures var s, id := Execute(dir, c, t), FileId(dir, c.file);
            s.Next? && Has(s.t, id, lo, n) && Window(s.t, id, lo, n) == dir[id].data[lo..lo + n]
  {
    hide FileId, RoundDown, RoundUp;
  }

  /** Running up to an allocation, through it, and on. */
  lemma ThroughAlloc(dir: Directory, before: seq<Command>, c: Command, after: seq<Command>, t: Tables)
    requires Quit !in before && Interpret(dir, before, t).Loaded? && c.Alloc? && FileId(dir, c.file) != -1
    ensures Execute(dir, c, Interpret(dir, before, t).t).Next?
    ensures Interpret(dir, before + ([c] + after), t) ==
            Interpret(dir, after, Execute(dir, c, Interpret(dir, before, t).t).t)
  {
    hide Interpret, FileId, RoundDown, RoundUp;
    InterpretParts(dir, before, [c] + after, t);
    InterpretCons(dir, c, after, Interpret(dir, before, t).t);
  }

  /** Bytes of a file that no command writes after its allocation are those of its blob at the end. */
  lemma LoadedBytes(dir: Directory, before: seq<Command>, c: Command, after: seq<Command>, t: Tables, lo: nat, n: nat)
    requires Quit !in before && Interpret(dir, before, t).Loaded? && c.Alloc? && FileId(dir, c.file) != -1
    requires lo + n <= |dir[FileId(dir, c.file)].data|
    requires forall d | d in after :: !Writes(dir, d, FileId(dir, c.file), lo, n)
    ensures var r, id := Interpret(dir, before + ([c] + after), t).t, FileId(dir, c.file);
            Has(r, id, lo, n) && Window(r, id, lo, n) == dir[id].data[lo..lo + n]
  {
    hide Interpret, Has, Window, Writes, Execute, FileId;
    ThroughAlloc(dir, before, c, after, t);
    var t1 := Interpret(dir, before, t).t;
    AllocHolds(dir, c, t1, lo, n);
    ScriptLeaves(dir, after, Execute(dir, c, t1).t, FileId(dir, c.file), lo, n);
  }

  /** The addresses that the files named as sources of one field have in files. */
  ghost function FinalSum(dir: Directory, script: seq<Command>, t: Tables, id: int, offset: nat, size: nat): nat {
    if script == [] then 0
    else AddedNow(dir, script[0], t, id, offset, size) + FinalSum(dir, script[1..], t, id, offset, size)
  }

  predicate Allocates(dir: Directory, script: seq<Command>, id: int) {
    exists d :: d in script && d.Alloc? && FileId(dir, d.file) == id
  }

  /** No file is allocated again once its address has been added to the field. */
  ghost predicate SourcesStay(dir: Directory, script: seq<Command>, id: int, offset: nat, size: nat) {
    script != [] ==>
      && (SameField(dir, script[0], id, offset, size) ==> !Allocates(dir, script[1..], FileId(dir, script[0].src)))
      && SourcesStay(dir, script[1..], id, offset, size)
  }

  lemma StepKeepsAddress(dir: Directory, c: Command, t: Tables, src: int)
    requires src in t.files && Execute(dir, c, t).Next? && !(c.Alloc? && FileId(dir, c.file) == src)
    ensures var t' := Execute(dir, c, t).t; src in t'.files && t'.files[src].addr == t.files[src].addr
  {
    hide FileId, RoundDown, RoundUp, Relocated, Checksummed;
  }

  lemma {:induction false} AddressStays(dir: Directory, script: seq<Command>, t: Tables, src: int)
    requires src in t.files && !Allocates(dir, script, src)
    ensures var r := Interpret(dir, script, t).t; src in r.files && r.files[src].addr == t.files[src].addr
  {
    hide Execute, Allocates;
    if script != [] {
      var s := Execute(dir, script[0], t);
      if s.Next? {
        AllocatesLess(dir, script, src);
        StepKeepsAddress(dir, script[0], t, src);
        AddressStays(dir, script[1..], s.t, src);
      }
    }
  }

  lemma AllocatesLess(dir: Directory, script: seq<Command>, src: int)
    requires script != [] && !Allocates(dir, script, src)
    ensures !(script[0].Alloc? && FileId(dir, script[0].file) == src) && !Allocates(dir, script[1..], src)
  {
    assert script[0] in script;
  }

  /** What is added while a script runs to its end are the addresses that the sources have then. */
  lemma {:induction false} AddedIsFinal(dir: Directory, script: seq<Command>, t: Tables,
                                        id: int, offset: nat, size: nat)
    requires Quit !in script && Interpret(dir, script, t).Loaded? && SourcesStay(dir, script, id, offset, size)
    ensures Added(dir, script, t, id, offset, size) ==
            FinalSum(dir, script, Interpret(dir, script, t).t, id, offset, size)
  {
    hide Execute, AddedNow, Allocates;
    if script != [] {
      var c, s := script[0], Execute(dir, script[0], t);
      NextOrPanic(dir, c, t);
      AddedIsFinal(dir, script[1..], s.t, id, offset, size);
      SourceKept(dir, c, script[1..], t, id, offset, size);
    }
  }

  lemma NextOrPanic(dir: Directory, c: Command, t: Tables)
    requires !c.Quit?
    ensures Execute(dir, c, t).Next? || Execute(dir, c, t).Panic?
  {
  }

  lemma SourceKept(dir: Directory, c: Command, after: seq<Command>, t: Tables, id: int, offset: nat, size: nat)
    requires Execute(dir, c, t).Next?
    requires SameField(dir, c, id, offset, size) ==> !Allocates(dir, after, FileId(dir, c.src))
    ensures AddedNow(dir, c, t, id, offset, size) ==
            AddedNow(dir, c, Interpret(dir, after, Execute(dir, c, t).t).t, id, offset, size)
  {
    hide Interpret, Allocates, FileId, RoundDown, RoundUp, Relocated, Checksummed;
    if SameField(dir, c, id, offset, size) {
      AddressStays(dir, after, Execute(dir, c, t).t, FileId(dir, c.src));
    }
  }

  /** Linking: in a script that completes, a pointer field of a file ends up as the number in its blob
      plus the final addresses of the files it was made to point to, in its own width. */
  lemma FieldIsLinked(dir: Directory, before: seq<Command>, c: Command, after: seq<Command>, t: Tables,
                      offset: nat, size: nat)
    requires Quit !in before && Interpret(dir, before, t).Loaded? && c.Alloc? && FileId(dir, c.file) != -1
    requires var id := FileId(dir, c.file);
             && offset + size <= |dir[id].data|
             && Quit !in after && Interpret(dir, before + ([c] + after), t).Loaded?
             && SourcesStay(dir, after, id, offset, size)
             && forall d | d in after :: SameField(dir, d, id, offset, size) || !Writes(dir, d, id, offset, size)
    ensures var r, id := Interpret(dir, before + ([c] + after), t).t, FileId(dir, c.file);
            && Has(r, id, offset, size)
            && FromLE(Window(r, id, offset, size)) ==
               Cut(FromLE(dir[id].data[offset..offset + size]) + FinalSum(dir, after, r, id, offset, size), size)
  {
    hide Interpret, Has, Window, Writes, SameField, Execute, FileId, FromLE, Cut, Added, FinalSum, SourcesStay;
    ThroughAlloc(dir, before, c, after, t);
    var id, t1 := FileId(dir, c.file), Interpret(dir, before, t).t;
    var t2 := Execute(dir, c, t1).t;
    AllocHolds(dir, c, t1, offset, size);
    FieldIsRelocated(dir, after, t2, id, offset, size);
    AddedIsFinal(dir, after, t2, id, offset, size);
  }

  // ---------- relocations in any order ----------

  /** Two relocations aim at different files, at fields apart, or at the same field. */
  predicate Compatible(dir: Directory, c: Command, d: Command)
    requires c.Ptr? && d.Ptr?
  {
    || FileId(dir, c.dest) != FileId(dir, d.dest)
    || c.offset + c.size <= d.offset || d.offset + d.size <= c.offset
    || (c.offset == d.offset && c.size == d.size)
  }

  predicate Relocations(dir: Directory, script: seq<Command>) {
    && (forall c | c in script :: c.Ptr?)
    && (forall c, d | c in script && d in script :: Compatible(dir, c, d))
  }

  /** Both runs panic, or both complete with the same tables. */
  predicate SameResult(a: Outcome, b: Outcome) {
    a.Panicked? == b.Panicked? && (a.Loaded? ==> a == b)
  }

  lemma RelocatedSame(b: seq<byte>, o: nat, n: nat, x: nat, y: nat)
    requires o + n <= |b|
    ensures Relocated(Relocated(b, o, n, x), o, n, y) == Patch(b, o, AddLE(b[o..o + n], x + y))
  {
    hide AddLE, Patch;
    var f := b[o..o + n];
    AddTwice(f, x, y);
    PatchOver(b, o, AddLE(f, x), AddLE(AddLE(f, x), y));
  }

  lemma RelocatedApart(b: seq<byte>, o: nat, n: nat, x: nat, o': nat, n': nat, x': nat)
    requires o + n <= |b| && o' + n' <= |b| && (o + n <= o' || o' + n' <= o)
    ensures Relocated(Relocated(b, o, n, x), o', n', x') ==
            Patch(Patch(b, o, AddLE(b[o..o + n], x)), o', AddLE(b[o'..o' + n'], x'))
  {
    hide AddLE, Patch;
    PatchElsewhere(b, o', n', o, AddLE(b[o..o + n], x));
  }

  lemma PatchesCommute(b: seq<byte>, o: nat, f: seq<byte>, o': nat, f': seq<byte>)
    requires o + |f| <= |b| && o' + |f'| <= |b| && (o + |f| <= o' || o' + |f'| <= o)
    ensures Patch(Patch(b, o, f), o', f') == Patch(Patch(b, o', f'), o, f)
  {
  }

  lemma RelocatedTwice(b: seq<byte>, o: nat, n: nat, x: nat, o': nat, n': nat, x': nat)
    requires o + n <= o' || o' + n' <= o || (o == o' && n == n')
    ensures Relocated(Relocated(b, o, n, x), o', n', x') == Relocated(Relocated(b, o', n', x'), o, n, x)
  {
    if o + n <= |b| && o' + n' <= |b| {
      hide AddLE, Relocated, Patch;
      if o == o' && n == n' {
        RelocatedSame(b, o, n, x, x');
        RelocatedSame(b, o, n, x', x);
      } else {
        RelocatedApart(b, o, n, x, o', n', x');
        RelocatedApart(b, o', n', x', o, n, x);
        PatchesCommute(b, o, AddLE(b[o..o + n], x), o', AddLE(b[o'..o' + n'], x'));
      }
    }
  }

  /** The files after a relocation that does not panic. */
  function Moved(dir: Directory, c: Command, files: map<int, Placed>): map<int, Placed>
    requires c.Ptr? && FileId(dir, c.src) in files && FileId(dir, c.dest) in files
  {
    var to := FileId(dir, c.dest);
    files[to := Placed(files[to].addr,
                       Relocated(files[to].bytes, c.offset, c.size, files[FileId(dir, c.src)].addr))]
  }

  lemma StepMoves(dir: Directory, c: Command, t: Tables)
    requires c.Ptr?
    ensures Execute(dir, c, t) ==
            if FileId(dir, c.src) in t.files && FileId(dir, c.dest) in t.files
            then Next(t.(files := Moved(dir, c, t.files))) else Panic
  {
  }

  lemma MovesCommute(dir: Directory, c: Command, d: Command, f: map<int, Placed>)
    requires c.Ptr? && d.Ptr? && Compatible(dir, c, d)
    requires FileId(dir, c.src) in f && FileId(dir, c.dest) in f
    requires FileId(dir, d.src) in f && FileId(dir, d.dest) in f
    ensures Moved(dir, d, Moved(dir, c, f)) == Moved(dir, c, Moved(dir, d, f))
  {
    hide Relocated, FileId;
    var a, b := FileId(dir, c.dest), FileId(dir, d.dest);
    var x, y := f[FileId(dir, c.src)].addr, f[FileId(dir, d.src)].addr;
    var fc, fd := Moved(dir, c, f), Moved(dir, d, f);
    assert fc[FileId(dir, d.src)].addr == y && fd[FileId(dir, c.src)].addr == x;
    if a == b {
      RelocatedTwice(f[a].bytes, c.offset, c.size, x, d.offset, d.size, y);
    } else {
      var c1 := Placed(f[a].addr, Relocated(f[a].bytes, c.offset, c.size, x));
      var d1 := Placed(f[b].addr, Relocated(f[b].bytes, d.offset, d.size, y));
      assert Moved(dir, d, fc) == f[a := c1][b := d1];
      assert Moved(dir, c, fd) == f[b := d1][a := c1];
    }
  }

  lemma Commute(dir: Directory, c: Command, d: Command, t: Tables)
    requires c.Ptr? && d.Ptr? && Compatible(dir, c, d)
    requires Execute(dir, c, t).Next? && Execute(dir, d, t).Next?
    ensures Execute(dir, d, Execute(dir, c, t).t).Next?
    ensures Execute(dir, d, Execute(dir, c, t).t) == Execute(dir, c, Execute(dir, d, t).t)
  {
    hide FileId, Execute, Compatible, Relocated;
    StepMoves(dir, c, t);
    StepMoves(dir, d, t);
    StepMoves(dir, d, Execute(dir, c, t).t);
    StepMoves(dir, c, Execute(dir, d, t).t);
    MovesCommute(dir, c, d, t.files);
    assert FileId(dir, d.src) in Moved(dir, c, t.files) && FileId(dir, d.dest) in Moved(dir, c, t.files);
    assert FileId(dir, c.src) in Moved(dir, d, t.files) && FileId(dir, c.dest) in Moved(dir, d, t.files);
  }

  lemma PtrKeepsFiles(dir: Directory, c: Command, d: Command, t: Tables)
    requires c.Ptr? && d.Ptr? && Execute(dir, c, t).Next?
    ensures Execute(dir, d, Execute(dir, c, t).t).Next? == Execute(dir, d, t).Next?
  {
  }

  lemma PtrNeverStops(dir: Directory, c: Command, t: Tables)
    requires c.Ptr?
    ensures Execute(dir, c, t).Next? || Execute(dir, c, t).Panic?
  {
  }

  lemma InterpretCons(dir: Directory, c: Command, rest: seq<Command>, t: Tables)
    ensures Interpret(dir, [c] + rest, t) ==
            match Execute(dir, c, t)
            case Next(t') => Interpret(dir, rest, t')
            case Stop => Loaded(t)
            case Panic => Panicked(t)
  {
    hide Execute;
    assert ([c] + rest)[1..] == rest;
  }

  /** Adjacent compatible relocations can be swapped. */
  lemma SwapHeads(dir: Directory, c: Command, d: Command, rest: seq<Command>, t: Tables)
    requires c.Ptr? && d.Ptr? && Compatible(dir, c, d)
    ensures SameResult(Interpret(dir, [c] + ([d] + rest), t), Interpret(dir, [d] + ([c] + rest), t))
  {
    hide Compatible, Execute, Interpret;
    InterpretCons(dir, c, [d] + rest, t);
    InterpretCons(dir, d, [c] + rest, t);
    PtrNeverStops(dir, c, t);
    PtrNeverStops(dir, d, t);
    var sc, sd := Execute(dir, c, t), Execute(dir, d, t);
    if sc.Next? {
      InterpretCons(dir, d, rest, sc.t);
      PtrKeepsFiles(dir, c, d, t);
      PtrNeverStops(dir, d, sc.t);
    }
    if sd.Next? {
      InterpretCons(dir, c, rest, sd.t);
      PtrKeepsFiles(dir, d, c, t);
      PtrNeverStops(dir, c, sd.t);
    }
    if sc.Next? && sd.Next? {
      Commute(dir, c, d, t);
    }
  }

  /** A relocation can be moved to the front of compatible ones. */
  lemma {:induction false} MoveToFront(dir: Directory, a: seq<Command>, c: Command, b: seq<Command>, t: Tables)
    requires c.Ptr? && forall d | d in a :: d.Ptr? && Compatible(dir, c, d)
    ensures SameResult(Interpret(dir, a + ([c] + b), t), Interpret(dir, [c] + (a + b), t))
  {
    hide Compatible, Execute, Interpret;
    if a == [] {
      assert a + ([c] + b) == [c] + (a + b);
    } else {
      var d, rest := a[0], a[1..];
      assert a + ([c] + b) == [d] + (rest + ([c] + b));
      assert a + b == [d] + (rest + b);
      InterpretCons(dir, d, rest + ([c] + b), t);
      InterpretCons(dir, d, [c] + (rest + b), t);
      if Execute(dir, d, t).Next? {
        MoveToFront(dir, rest, c, b, Execute(dir, d, t).t);
      }
      SwapHeads(dir, c, d, rest + b, t);
    }
  }

  /** The first element of a sequence found in a permutation of it. */
  lemma SplitAt(a: seq<Command>, b: seq<Command>) returns (b1: seq<Command>, b2: seq<Command>)
    requires a != [] && multiset(a) == multiset(b)
    ensures b == b1 + ([a[0]] + b2) && multiset(a[1..]) == multiset(b1 + b2)
    ensures forall d | d in b1 :: d in a
  {
    assert a[0] in multiset(a);
    var i :| 0 <= i < |b| && b[i] == a[0];
    b1, b2 := b[..i], b[i + 1..];
    assert b == b1 + ([a[0]] + b2);
    WithoutOne(a, [], a[1..], a[0]);
    WithoutOne(b, b1, b2, a[0]);
    forall d | d in b1 ensures d in a {
      assert d in multiset(b);
    }
  }

  lemma WithoutOne(s: seq<Command>, s1: seq<Command>, s2: seq<Command>, c: Command)
    requires s == s1 + ([c] + s2)
    ensures multiset(s1 + s2) == multiset(s) - multiset{c}
    ensures multiset([] + s2) == multiset(s2)
  {
    assert [] + s2 == s2;
    assert multiset(s) == multiset(s1) + multiset{c} + multiset(s2);
  }

  /** A run of relocations whose fields are pairwise apart or identical gives the same memory in
      every order. */
  lemma {:induction false} AnyOrder(dir: Directory, a: seq<Command>, b: seq<Command>, t: Tables)
    requires Relocations(dir, a) && multiset(a) == multiset(b)
    ensures SameResult(Interpret(dir, a, t), Interpret(dir, b, t))
    decreases |a|
  {
    hide Compatible, StepPtr, StepAlloc, StepChecksum, FileId;
    if a == [] {
      assert |multiset(b)| == 0;
    } else {
      var c := a[0];
      var b1, b2 := SplitAt(a, b);
      MoveToFront(dir, b1, c, b2, t);
      hide Interpret, Execute;
      assert a == [c] + a[1..];
      InterpretCons(dir, c, a[1..], t);
      InterpretCons(dir, c, b1 + b2, t);
      PtrNeverStops(dir, c, t);
      if Execute(dir, c, t).Next? {
        AnyOrder(dir, a[1..], b1 + b2, Execute(dir, c, t).t);
      }
    }
  }
}
