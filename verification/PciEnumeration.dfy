/** The recursive bus enumeration of pci.c, run against the routing model of `PciRouting`. */
module PciEnumeration {
  import opened Bytes
  import opened PciTopology
  import opened PciRouting
  import opened PciPlan
  import opened PciTheorems

  const PCI_ID_82441: nat := 0x12378086
  const PCI_ID_Q35_MCH: nat := 0x29C08086
  const PCI_ID_82371SB_1: nat := 0x70108086
  const PCI_ID_82371AB: nat := 0x71118086

  // ---------- register arithmetic ----------

  /** The two halves of the identification register, all ones where nothing answers. */
  function AnyVendor(s: Slot): uint16 {
    if s.Empty? then 0xFFFF else s.hdr.vendor
  }

  function AnyDevice(s: Slot): uint16 {
    if s.Empty? then 0xFFFF else s.hdr.device
  }

  lemma VendorPart(id: nat, vendor: uint16, device: uint16)
    requires id == device * 65536 + vendor
    ensures id % 65536 == vendor
    ensures (vendor + 1) % 65536 <= 1 <==> vendor == 0 || vendor == 0xFFFF
  {
  }

  lemma BdfParts(bdf: nat, n: nat, x: byte)
    requires bdf == n * 256 + x
    ensures bdf / 256 == n && bdf % 256 == x && bdf / 8 % 32 == x / 8
  {
  }

  /** Bit 1 of a 16-bit number, set. */
  lemma OrTwo(ctl: nat)
    requires ctl < 65536 && ctl / 2 % 2 == 0
    ensures ctl + 2 < 65536
  {
  }

  lemma IdeId(hdr: Header, id: nat)
    requires id == hdr.device * 65536 + hdr.vendor
    ensures IsIntelIde(hdr) <==> id == PCI_ID_82371SB_1 || id == PCI_ID_82371AB
  {
  }

  /** What the writes to an IDE controller come to. */
  lemma IdeWrites(hdr: Header, r: Registers)
    requires hdr.classCode == CLASS_STORAGE_IDE
    ensures var s := SetField(SetField(SetField(SetField(r,
                       Offset(0x10), 0x1f0), Offset(0x14), 0x3f4), Offset(0x18), 0x170), Offset(0x1c), 0x374);
            WithIde(hdr, r) ==
            if IsIntelIde(hdr) then SetField(SetField(s, Offset(0x40), 0x8000), Offset(0x42), 0x8000) else s
  {
  }

  // ---------- the hardware interface ----------

  datatype Field =
    | VendorId | ClassDevice | HeaderType | InterruptPin
    | PrimaryBus | SecondaryBus | SubordinateBus | Line
    | BridgeControl | Offset(offset: nat)

  /** What a bus nobody drives reads as. */
  function Floating(f: Field): nat {
    match f
    case VendorId => 0xFFFF_FFFF
    case ClassDevice => 0xFFFF
    case BridgeControl => 0xFFFF
    case _ => 0xFF
  }

  function FieldOf(hdr: Header, r: Registers, f: Field): nat {
    match f
    case VendorId => hdr.device * 65536 + hdr.vendor
    case ClassDevice => hdr.classCode
    case HeaderType => hdr.headerType
    case InterruptPin => hdr.pin
    case PrimaryBus => r.primary
    case SecondaryBus => r.secondary
    case SubordinateBus => r.subordinate
    case Line => r.line
    case BridgeControl => r.control
    case Offset(o) => if o in r.others then r.others[o] else 0
  }

  /** A register takes as much of a value as it has room for. */
  function SetField(r: Registers, f: Field, v: nat): Registers {
    match f
    case PrimaryBus => r.(primary := v % 256)
    case SecondaryBus => r.(secondary := v % 256)
    case SubordinateBus => r.(subordinate := v % 256)
    case Line => r.(line := v % 256)
    case BridgeControl => r.(control := v % 65536)
    case Offset(o) => r.(others := r.others[o := v % WORD])
    case _ => r
  }

  /** What the identification register at bus 0, device 0 reads as. */
  function HostId(root: Bus): nat {
    var s := SlotAt(root, [0]);
    if s.Empty? then Floating(VendorId) else s.hdr.device * 65536 + s.hdr.vendor
  }

  /** The host bridge, an Intel device at the first slot of the root bus. */
  predicate HostIs(root: Bus, device: uint16) {
    var s := SlotAt(root, [0]);
    !s.Empty? && s.hdr.vendor == 0x8086 && s.hdr.device == device
  }

  lemma HostIds(root: Bus)
    ensures HostId(root) == PCI_ID_82441 <==> HostIs(root, 0x1237)
    ensures HostId(root) == PCI_ID_Q35_MCH <==> HostIs(root, 0x29C0)
  {
  }

  // ---------- the trace of accesses ----------

  datatype Action = Loaded | Stored(x: byte, f: Field, v: nat)

  /** One configuration access: the bus number it asked for, the buses it was delivered on, and what it
      did there. */
  datatype Access = Access(number: nat, landed: iset<Path>, action: Action)

  /** The access was delivered on one bus only, and that is the bus that ends up with the number. */
  ghost predicate Intended(root: Bus, a: Access)
  {
    exists p :: IsBus(root, p) && a.number == Number(root, p) && a.landed == iset{p}
  }

  ghost predicate AllIntended(root: Bus, accesses: seq<Access>)
  {
    forall a | a in accesses :: Intended(root, a)
  }

  /** The registers after every function that answers has taken a value. */
  function Written(regs: ConfigSpace, b: nat, x: byte, f: Field, v: nat): ConfigSpace {
    var ts := Targets(regs, b, x);
    map q | q in regs :: if q in ts then SetField(regs[q], f, v) else regs[q]
  }

  lemma WrittenOne(regs: ConfigSpace, b: nat, x: byte, q: Path, f: Field, v: nat)
    requires Targets(regs, b, x) == {q} && q in regs
    ensures Written(regs, b, x, f, v) == regs[q := SetField(regs[q], f, v)]
  {
    hide Targets, SetField;
  }

  /** What the accesses, in order, make of the registers. */
  function Replay(initial: ConfigSpace, accesses: seq<Access>): ConfigSpace {
    if accesses == [] then initial
    else
      var before, a := Replay(initial, accesses[..|accesses| - 1]), accesses[|accesses| - 1];
      match a.action
      case Loaded => before
      case Stored(x, f, v) => Written(before, a.number, x, f, v)
  }

  /** The trace is complete: it accounts for the registers, and each access was delivered as the
      bridges stood when it was made. */
  ghost predicate Explained(root: Bus, initial: ConfigSpace, accesses: seq<Access>, regs: ConfigSpace)
  {
    && regs == Replay(initial, accesses)
    && forall i | 0 <= i < |accesses| ::
         accesses[i].landed == Landing(root, Replay(initial, accesses[..i]), accesses[i].number)
  }

  lemma ExplainedMore(root: Bus, initial: ConfigSpace, accesses: seq<Access>, regs: ConfigSpace, a: Access)
    requires Explained(root, initial, accesses, regs) && a.landed == Landing(root, regs, a.number)
    ensures Explained(root, initial, accesses + [a],
                      match a.action { case Loaded => regs case Stored(x, f, v) => Written(regs, a.number, x, f, v) })
  {
    hide Written, Landing;
    var all := accesses + [a];
    assert all[..|accesses|] == accesses;
    forall i | 0 <= i < |all| ensures all[i].landed == Landing(root, Replay(initial, all[..i]), all[i].number) {
      if i < |accesses| {
        assert all[..i] == accesses[..i];
      }
    }
  }

  class Pci {
    const root: Bus
    var regs: ConfigSpace
    var bus: byte
    var bridgeHead: byte
    var bridgeCount: nat
    var addend: nat
    var useI440fx: bool
    var maxBus: byte
    ghost const initial: ConfigSpace
    ghost var accesses: seq<Access>
    ghost var setUp: seq<Path>

    ghost predicate Valid()
      reads this
    {
      && WellFormed(root) && Count(root) <= 255
      && Populated(root, regs)
      && AllIntended(root, accesses) && Explained(root, initial, accesses, regs)
    }

    /** Power-on: static variables are zero, the registers hold anything. */
    constructor (root: Bus, regs: ConfigSpace)
      requires WellFormed(root) && Count(root) <= 255 && Populated(root, regs)
      ensures Valid() && this.root == root && this.regs == regs == initial
      ensures bus == maxBus == 0 && addend == 0
      ensures accesses == [] && setUp == []
    {
      this.root, this.regs, initial := root, regs, regs;
      bus, bridgeHead, bridgeCount, addend, useI440fx, maxBus := 0, 0, 0, 0, false, 0;
      accesses, setUp := [], [];
    }

    /** The hardware's side of a read: some function that answers supplies the value. */
    method Read(bdf: nat, f: Field) returns (v: nat)
      requires Populated(root, regs)
      modifies `accesses
      ensures accesses == old(accesses) + [Access(bdf / 256, Landing(root, regs, bdf / 256), Loaded)]
      ensures var ts := Targets(regs, bdf / 256, bdf % 256);
              if ts == {} then v == Floating(f)
              else exists q :: q in ts && v == FieldOf(SlotAt(root, q).hdr, regs[q], f)
    {
      var ts := Targets(regs, bdf / 256, bdf % 256);
      accesses := accesses + [Access(bdf / 256, Landing(root, regs, bdf / 256), Loaded)];
      if ts == {} {
        v := Floating(f);
      } else {
        var q :| q in ts;
        v := FieldOf(SlotAt(root, q).hdr, regs[q], f);
      }
    }

    /** The hardware's side of a write: every function that answers takes the value. */
    method Write(bdf: nat, f: Field, v: nat)
      modifies `accesses, `regs
      ensures accesses == old(accesses) + [Access(bdf / 256, Landing(root, old(regs), bdf / 256),
                                                  Stored(bdf % 256, f, v))]
      ensures regs == Written(old(regs), bdf / 256, bdf % 256, f, v)
    {
      accesses := accesses + [Access(bdf / 256, Landing(root, regs, bdf / 256), Stored(bdf % 256, f, v))];
      var ts := Targets(regs, bdf / 256, bdf % 256);
      regs := map q | q in regs :: if q in ts then SetField(regs[q], f, v) else regs[q];
    }

    /** What the firmware relies on: the bdf it computed addresses slot x of bus p. */
    ghost predicate Addresses(bdf: nat, p: Path, x: byte)
      reads this
    {
      IsBus(root, p) && Open(root, regs, p) && bdf == Number(root, p) * 256 + x
    }

    method ReadAt(bdf: nat, f: Field, ghost p: Path, ghost x: byte) returns (v: nat)
      requires Valid() && Addresses(bdf, p, x)
      modifies `accesses
      ensures old(accesses) <= accesses
      ensures Valid()
      ensures IsFunction(root, p + [x]) ==> p + [x] in regs
      ensures var s := SlotAt(root, p + [x]);
              v == if s.Empty? then Floating(f) else FieldOf(s.hdr, At(regs, p + [x]), f)
    {
      hide Explained;
      LandsThere(root, regs, p);
      RoutedTo(root, regs, p, x);
      BdfParts(bdf, Number(root, p), x);
      ghost var a := Access(bdf / 256, Landing(root, regs, bdf / 256), Loaded);
      ExplainedMore(root, initial, accesses, regs, a);
      v := Read(bdf, f);
      assert Intended(root, a);
    }

    lemma KeepsBusNumbers(before: ConfigSpace, p: Path, x: byte, f: Field, v: nat)
      requires p + [x] in before
      ensures forall q: Path | |q| <= |p| :: At(before[p + [x] := SetField(before[p + [x]], f, v)], q) == At(before, q)
    {
      hide SetField;
    }

    method WriteAt(bdf: nat, f: Field, v: nat, ghost p: Path, ghost x: byte)
      requires Valid() && Addresses(bdf, p, x) && IsFunction(root, p + [x])
      modifies `accesses, `regs
      ensures old(accesses) <= accesses
      ensures Valid()
      ensures regs == old(regs)[p + [x] := SetField(old(regs)[p + [x]], f, v)]
      ensures Open(root, regs, p)
    {
      hide Explained, Written, Targets, Landing, WellFormed, SetField;
      LandsThere(root, regs, p);
      RoutedTo(root, regs, p, x);
      BdfParts(bdf, Number(root, p), x);
      WrittenOne(regs, bdf / 256, x, p + [x], f, v);
      ghost var before := regs;
      ghost var a := Access(bdf / 256, Landing(root, regs, bdf / 256), Stored(x, f, v));
      ExplainedMore(root, initial, accesses, regs, a);
      Write(bdf, f, v);
      assert Intended(root, a);
      KeepsBusNumbers(before, p, x, f, v);
      OpenFrame(root, before, regs, p);
    }

    // ---------- pci.c ----------

    method DoSetupPciIrq(bdf: nat, pin: nat, ghost p: Path, ghost x: byte)
      requires Valid() && Addresses(bdf, p, x) && IsFunction(root, p + [x])
      requires pin > 0 && addend == DeviceSum(p) % 65536
      modifies `accesses, `regs
      ensures old(accesses) <= accesses
      ensures Valid() && Open(root, regs, p)
      ensures regs == old(regs)[p + [x] := WithLine(useI440fx, p + [x], pin, old(regs)[p + [x]])]
    {
      hide WellFormed, Populated, AllIntended, Explained, Open;
      PathStep(p, x);
      BdfParts(bdf, Number(root, p), x);
      var dev := bdf / 8 % 32;
      var irq := ReadAt(bdf, Line, p, x);
      if irq != 0 {
        assert regs == old(regs)[p + [x] := old(regs)[p + [x]]];
        return;
      }
      var lnk := addend + pin;
      if useI440fx {
        lnk := lnk + dev - 1;
      } else if dev <= 24 {
        lnk := lnk + dev;
      }
      LineFromSum(useI440fx, p, x, pin, addend, lnk);
      lnk := lnk % 4;
      irq := if lnk / 2 % 2 == 1 then 11 else 10;
      WriteAt(bdf, Line, irq, p, x);
    }

    lemma BlockWrites(r: Registers, primary: byte, link: byte)
      ensures SetField(SetField(SetField(r, PrimaryBus, primary), SubordinateBus, 0), SecondaryBus, link) ==
              r.(primary := primary, secondary := link, subordinate := 0)
    {
    }

    /** The bridge case of do_setup_pci: block the bridge and push it on the list. */
    method BlockBridge(bdf: nat, ghost p: Path, ghost x: byte)
      requires Valid() && Addresses(bdf, p, x) && IsBus(root, p + [x])
      requires bus == Number(root, p)
      modifies `accesses, `regs, `bridgeHead, `bridgeCount
      ensures old(accesses) <= accesses
      ensures Valid() && Open(root, regs, p)
      ensures regs == old(regs)[p + [x] := old(regs)[p + [x]].(
                primary := bus, secondary := old(bridgeHead), subordinate := 0)]
      ensures bridgeHead == x && bridgeCount == old(bridgeCount) + 1
    {
      hide WellFormed, Populated, AllIntended, Explained, Open, SetField;
      PathStep(p, x);
      BusIsFunction(root, p + [x]);
      InRegisters(p + [x]);
      BdfParts(bdf, Number(root, p), x);
      BlockWrites(regs[p + [x]], bus, bridgeHead);
      WriteAt(bdf, PrimaryBus, bus, p, x);
      WriteAt(bdf, SubordinateBus, 0, p, x);
      WriteAt(bdf, SecondaryBus, bridgeHead, p, x);
      bridgeHead := bdf % 256;
      bridgeCount := bridgeCount + 1;
    }

    /** The bridge control register takes the SERR bit. */
    method ForwardErrors(bdf: nat, headerType: byte, ghost p: Path, ghost x: byte)
      requires Valid() && Addresses(bdf, p, x) && IsFunction(root, p + [x])
      modifies `accesses, `regs
      ensures old(accesses) <= accesses
      ensures Valid() && Open(root, regs, p)
      ensures regs == old(regs)[p + [x] := WithSerr(headerType, old(regs)[p + [x]])]
    {
      hide WellFormed, Populated, AllIntended, Explained, Open;
      if headerType % 2 == 1 {
        var ctl := ReadAt(bdf, BridgeControl, p, x);
        if ctl / 2 % 2 == 0 {
          OrTwo(ctl);
          ctl := ctl + 2;
        }
        WriteAt(bdf, BridgeControl, ctl, p, x);
      } else {
        InRegisters(p + [x]);
        assert regs == regs[p + [x] := regs[p + [x]]];
      }
    }

    lemma InRegisters(q: Path)
      requires Valid() && IsFunction(root, q)
      ensures q in regs
    {
    }

    /** The IDE case of do_setup_pci. */
    method SetupIde(bdf: nat, id: nat, ghost p: Path, ghost x: byte)
      requires Valid() && Addresses(bdf, p, x) && IsFunction(root, p + [x])
      requires var hdr := SlotAt(root, p + [x]).hdr;
               hdr.classCode == CLASS_STORAGE_IDE && id == hdr.device * 65536 + hdr.vendor
      modifies `accesses, `regs
      ensures old(accesses) <= accesses
      ensures Valid() && Open(root, regs, p)
      ensures regs == old(regs)[p + [x] := WithIde(SlotAt(root, p + [x]).hdr, old(regs)[p + [x]])]
    {
      hide WellFormed, Populated, AllIntended, Explained, Open, SetField, WithIde;
      InRegisters(p + [x]);
      IdeId(SlotAt(root, p + [x]).hdr, id);
      IdeWrites(SlotAt(root, p + [x]).hdr, regs[p + [x]]);
      WriteAt(bdf, Offset(0x10), 0x1f0, p, x);
      WriteAt(bdf, Offset(0x14), 0x3f4, p, x);
      WriteAt(bdf, Offset(0x18), 0x170, p, x);
      WriteAt(bdf, Offset(0x1c), 0x374, p, x);
      if id == PCI_ID_82371SB_1 || id == PCI_ID_82371AB {
        WriteAt(bdf, Offset(0x40), 0x8000, p, x);
        WriteAt(bdf, Offset(0x42), 0x8000, p, x);
      }
    }

    method DoSetupPci(bdf: nat, id: nat, headerType: byte, ghost p: Path, ghost x: byte)
      requires Valid() && Addresses(bdf, p, x)
      requires IsVisible(root, p + [x]) && bus == Number(root, p)
      requires var hdr := SlotAt(root, p + [x]).hdr;
               id == hdr.device * 65536 + hdr.vendor && headerType == hdr.headerType
      requires addend == DeviceSum(p) % 65536
      requires bridgeHead == PreviousBridge(BusAt(root, p).value, x)
      modifies `accesses, `regs, `bridgeHead, `bridgeCount, `setUp
      ensures old(accesses) <= accesses
      ensures Valid() && Open(root, regs, p)
      ensures regs == old(regs)[p + [x] := Scanned(root, useI440fx, p + [x], old(regs)[p + [x]])]
      ensures bridgeHead == PreviousBridge(BusAt(root, p).value, x + 1)
      ensures bridgeCount == old(bridgeCount) + if IsBus(root, p + [x]) then 1 else 0
      ensures setUp == old(setUp) + [p + [x]]
    {
      hide WellFormed, Populated, AllIntended, Explained, Open, WithLine, WithSerr, WithIde, SetField;
      PathStep(p, x);
      ghost var q := p + [x];
      ghost var slot := SlotAt(root, q);
      BridgeByClass(root, q);
      assert slot == SlotOf(BusAt(root, p).value, x);
      setUp := setUp + [q];
      var pin := ReadAt(bdf, InterruptPin, p, x);
      if pin != 0 {
        DoSetupPciIrq(bdf, pin, p, x);
      } else {
        NoPin(useI440fx, q, old(regs)[q]);
      }
      ForwardErrors(bdf, headerType, p, x);
      ActOnClass(bdf, id, p, x);
    }

    /** The cases of do_setup_pci by class. */
    method ActOnClass(bdf: nat, id: nat, ghost p: Path, ghost x: byte)
      requires Valid() && Addresses(bdf, p, x) && IsFunction(root, p + [x]) && bus == Number(root, p)
      requires var hdr := SlotAt(root, p + [x]).hdr;
               && id == hdr.device * 65536 + hdr.vendor
               && (hdr.classCode == CLASS_BRIDGE_PCI <==> IsBus(root, p + [x]))
      modifies `accesses, `regs, `bridgeHead, `bridgeCount
      ensures old(accesses) <= accesses
      ensures Valid() && Open(root, regs, p)
      ensures p + [x] in old(regs)
      ensures var r := WithIde(SlotAt(root, p + [x]).hdr, old(regs)[p + [x]]);
              regs == old(regs)[p + [x] := if IsBus(root, p + [x]) then
                                             r.(primary := bus, secondary := old(bridgeHead), subordinate := 0)
                                           else r]
      ensures bridgeHead == if IsBus(root, p + [x]) then x else old(bridgeHead)
      ensures bridgeCount == old(bridgeCount) + if IsBus(root, p + [x]) then 1 else 0
    {
      hide WellFormed, Populated, AllIntended, Explained, Open, WithIde, SetField;
      ghost var q := p + [x];
      InRegisters(q);
      var classCode := ReadAt(bdf, ClassDevice, p, x);
      if classCode == CLASS_STORAGE_IDE {
        SetupIde(bdf, id, p, x);
      } else {
        NotIde(SlotAt(root, q).hdr, regs[q]);
        assert regs == regs[q := regs[q]];
        if classCode == CLASS_BRIDGE_PCI {
          BlockBridge(bdf, p, x);
        }
      }
    }

    lemma NoPin(i440fx: bool, q: Path, r: Registers)
      requires q != []
      ensures WithLine(i440fx, q, 0, r) == r
    {
    }

    lemma NotIde(hdr: Header, r: Registers)
      requires hdr.classCode != CLASS_STORAGE_IDE
      ensures WithIde(hdr, r) == r
    {
    }

    /** The loop state of pci_foreach when the slots of bus p below i have been passed. */
    ghost predicate Foreach(regs0: ConfigSpace, setUp0: seq<Path>, p: Path, t: Bus, i: nat)
      reads `regs, `useI440fx, `bridgeHead, `bridgeCount, `setUp
      requires Count(root) <= 255 && i <= SLOTS
    {
      && regs == ScanTo(root, useI440fx, p, i, regs0)
      && bridgeHead == PreviousBridge(t, i)
      && bridgeCount == BridgesBelow(t, i)
      && setUp == setUp0 + FoundBelow(t, p, i)
    }

    lemma SkipHidden(regs0: ConfigSpace, setUp0: seq<Path>, p: Path, t: Bus, i: nat, k: nat)
      requires Valid() && BusAt(root, p) == Some(t)
      requires i <= k <= SLOTS && forall j | i <= j < k :: !Visible(t, j)
      requires Foreach(regs0, setUp0, p, t, i)
      ensures Foreach(regs0, setUp0, p, t, k)
    {
      BusIsWellFormed(root, p);
      HiddenSlots(t, i, k);
      HiddenFound(t, p, i, k);
      ScanHidden(root, useI440fx, p, i, k, regs0);
    }

    lemma NothingScanned(p: Path, t: Bus)
      requires Count(root) <= 255 && bridgeHead == 0xFF && bridgeCount == 0
      ensures Foreach(regs, setUp, p, t, 0)
    {
    }

    /** One round of the loop body up to its break tests: what stands at slot x of the bus, if
        anything does, is set up. */
    method VisitSlot(bdf: nat, ghost regs0: ConfigSpace, ghost setUp0: seq<Path>,
                     ghost p: Path, ghost t: Bus, ghost x: byte)
      returns (present: bool, headerType: byte)
      requires Valid() && BusAt(root, p) == Some(t) && Addresses(bdf, p, x)
      requires bus == Number(root, p) && addend == DeviceSum(p) % 65536
      requires Foreach(regs0, setUp0, p, t, x)
      requires Present(SlotOf(t, x)) ==> Visible(t, x)
      modifies `accesses, `regs, `bridgeHead, `bridgeCount, `setUp
      ensures old(accesses) <= accesses
      ensures Valid() && Open(root, regs, p)
      ensures Foreach(regs0, setUp0, p, t, if present then x + 1 else x)
      ensures present == Present(SlotOf(t, x))
      ensures present ==> headerType == SlotOf(t, x).hdr.headerType
    {
      hide WellFormed, Populated, AllIntended, Explained, Open;
      PathStep(p, x);
      assert SlotAt(root, p + [x]) == SlotOf(t, x);
      headerType := 0;
      var id := ReadAt(bdf, VendorId, p, x);
      VendorPart(id, AnyVendor(SlotOf(t, x)), AnyDevice(SlotOf(t, x)));
      var vendor := id % 65536;
      present := (vendor + 1) % 65536 > 1;
      if present {
        headerType := ReadAt(bdf, HeaderType, p, x);
        DoSetupPci(bdf, id, headerType, p, x);
      }
    }

    method PciForeach(ghost p: Path, ghost t: Bus)
      requires Valid() && BusAt(root, p) == Some(t) && Open(root, regs, p)
      requires bus == Number(root, p) && addend == DeviceSum(p) % 65536
      requires bridgeHead == 0xFF && bridgeCount == 0
      modifies `accesses, `regs, `bridgeHead, `bridgeCount, `setUp
      ensures old(accesses) <= accesses
      ensures Valid() && Open(root, regs, p)
      ensures Foreach(old(regs), old(setUp), p, t, SLOTS)
    {
      hide WellFormed, Populated, AllIntended, Explained, Open, Visible, Foreach;
      NothingScanned(p, t);
      for d := 0 to 32
        invariant Valid() && Open(root, regs, p) && old(accesses) <= accesses
        invariant Foreach(old(regs), old(setUp), p, t, d * 8)
      {
        for f := 0 to 8
          invariant Valid() && Open(root, regs, p) && old(accesses) <= accesses
          invariant Foreach(old(regs), old(setUp), p, t, d * 8 + f)
          invariant f > 0 ==> FunctionZeroAdmits(t, d)
        {
          FunctionZero(t, d, f);
          var present, headerType :=
            VisitSlot(bus * 256 + d * 8 + f, old(regs), old(setUp), p, t, d * 8 + f);
          if !present {
            if f == 0 {
              SkipHidden(old(regs), old(setUp), p, t, d * 8, d * 8 + 8);
              break;
            } else {
              SkipHidden(old(regs), old(setUp), p, t, d * 8 + f, d * 8 + f + 1);
              continue;
            }
          }
          if f == 0 && headerType < 0x80 {
            SkipHidden(old(regs), old(setUp), p, t, d * 8 + 1, d * 8 + 8);
            break;
          }
        }
      }
    }

    /** The bridges of bus p from slot hi upwards and everything behind them are done. */
    ghost predicate Bridges(regs0: ConfigSpace, setUp0: seq<Path>, p: Path, t: Bus, hi: nat)
      reads `regs, `useI440fx, `maxBus, `addend, `setUp
      requires Count(root) <= 255 && hi <= SLOTS
    {
      && regs == MidwayAll(root, useI440fx, p, hi, regs0)
      && maxBus == Number(root, p) + CountFrom(t, hi)
      && addend == DeviceSum(p) % 65536
      && setUp + FoundBehind(t, p, hi) == setUp0 + FoundFrom(t, p)
    }

    method DoSetupPciBus(ghost p: Path, ghost t: Bus)
      requires Valid() && BusAt(root, p) == Some(t) && Open(root, regs, p)
      requires bus == maxBus == Number(root, p) && addend == DeviceSum(p) % 65536
      modifies this
      ensures old(accesses) <= accesses
      ensures Valid() && useI440fx == old(useI440fx)
      ensures regs == FinalBelow(root, useI440fx, p, old(regs))
      ensures maxBus == LastNumber(root, p) && addend == old(addend)
      ensures setUp == old(setUp) + FoundFrom(t, p)
      decreases t, 1
    {
      hide WellFormed, Populated, AllIntended, Explained, Open, Midway, MidwayAll, FinalBelow, FoundBehind, ScanTo;
      bridgeHead := 0xFF;
      bridgeCount := 0;
      PciForeach(p, t);
      var nextHead, saveBus := bridgeHead, bus;
      MidwayStart(root, useI440fx, p, old(regs));
      ghost var hi := SLOTS;
      BusIsWellFormed(root, p);
      assert |t.slots| == SLOTS by { SlotCount(t); }
      for i := bridgeCount downto 0
        invariant 0 <= hi <= SLOTS && i == BridgesBelow(t, hi) && nextHead == PreviousBridge(t, hi)
        invariant Valid() && Open(root, regs, p) && useI440fx == old(useI440fx) && old(accesses) <= accesses
        invariant Bridges(old(regs), old(setUp), p, t, hi)
      {
        HeadIsBridge(t, hi);
        ghost var x := nextHead;
        nextHead := SetupBridge(saveBus as nat * 256 + nextHead, old(regs), old(setUp), p, t, x, hi);
        hi := x;
      }
      NoBridgesBelow(t, hi);
      NoBridgeAt(root, p, 0, hi);
      MidwayEnd(root, useI440fx, p, hi, old(regs));
      FoundBehindSkip(t, p, 0, hi);
      NothingFound(t, p);
    }

    /** Take the bridge at x off the list: give it the next bus number and open it. */
    method OpenBridge(bdf: nat, ghost regs0: ConfigSpace, ghost p: Path, ghost x: byte, ghost hi: nat)
      returns (nextHead: byte)
      requires Valid() && Addresses(bdf, p, x)
      requires x < hi <= SLOTS && IsBus(root, p + [x]) && NoBridgeBetween(root, p, x + 1, hi)
      requires Populated(root, regs0) && regs == MidwayAll(root, useI440fx, p, hi, regs0)
      requires maxBus + 1 == Number(root, p + [x]) <= 255
      modifies `accesses, `regs, `bus, `maxBus
      ensures old(accesses) <= accesses
      ensures Valid() && Open(root, regs, p) && Open(root, regs, p + [x])
      ensures nextHead == PreviousBridge(BusAt(root, p).value, x)
      ensures bus == maxBus == Number(root, p + [x])
      ensures p + [x] in old(regs) && p + [x] in regs0
      ensures regs == old(regs)[p + [x] := old(regs)[p + [x]].(secondary := bus, subordinate := 255)]
    {
      hide WellFormed, Populated, AllIntended, Explained, Open, MidwayAll;
      PathStep(p, x);
      BusIsFunction(root, p + [x]);
      LinkIsPrevious(root, useI440fx, p, x, hi, regs0);
      SiblingsEndBelow(root, useI440fx, p, x, hi, regs0);
      nextHead := ReadAt(bdf, SecondaryBus, p, x);
      maxBus := maxBus + 1;
      bus := maxBus;
      WriteAt(bdf, SecondaryBus, bus, p, x);
      WriteAt(bdf, SubordinateBus, 255, p, x);
      OpenChild(root, regs, p, x);
    }

    method SetupBridge(bdf: nat, ghost regs0: ConfigSpace, ghost setUp0: seq<Path>,
                       ghost p: Path, ghost t: Bus, ghost x: byte, ghost hi: nat)
      returns (nextHead: byte)
      requires Valid() && BusAt(root, p) == Some(t) && Addresses(bdf, p, x)
      requires x < hi <= SLOTS && SlotOf(t, x).Bridge? && forall j | x < j < hi :: !SlotOf(t, j).Bridge?
      requires Populated(root, regs0) && Bridges(regs0, setUp0, p, t, hi)
      modifies this
      ensures old(accesses) <= accesses
      ensures nextHead == PreviousBridge(t, x)
      ensures Valid() && Open(root, regs, p) && useI440fx == old(useI440fx)
      ensures Bridges(regs0, setUp0, p, t, x)
      decreases t, 0
    {
      hide WellFormed, Populated, AllIntended, Explained, Open, FinalBelow, MidwayAll, FoundBehind, FoundFrom,
        CountFrom, Number, DeviceSum;
      ghost var b, child := p + [x], SlotOf(t, x).child;
      PathStep(p, x);
      NumberStep(root, p, x, hi);
      BdfParts(bdf, Number(root, p), x);
      NoBridgeAt(root, p, x + 1, hi);
      FoundBehindStep(t, p, x, hi);

      nextHead := OpenBridge(bdf, regs0, p, x, hi);
      ghost var begun := regs;
      Descend(bdf, p, x, child);
      CloseBridge(bdf, regs0, begun, p, x, hi);
    }

    /** The recursive call, with the device number of the bridge in the running sum while it lasts. */
    method Descend(bdf: nat, ghost p: Path, ghost x: byte, ghost child: Bus)
      requires Valid() && BusAt(root, p + [x]) == Some(child) && Open(root, regs, p + [x])
      requires bdf % 256 == x && bus == maxBus == Number(root, p + [x]) && addend == DeviceSum(p) % 65536
      modifies this
      ensures old(accesses) <= accesses
      ensures Valid() && useI440fx == old(useI440fx)
      ensures regs == FinalBelow(root, useI440fx, p + [x], old(regs))
      ensures maxBus == LastNumber(root, p + [x]) && addend == old(addend)
      ensures setUp == old(setUp) + FoundFrom(child, p + [x])
      decreases child, 2
    {
      hide WellFormed, Populated, AllIntended, Explained, Open, FinalBelow, FoundFrom, Number, DeviceSum;
      BdfParts(bdf, bdf / 256, x);
      DeviceSumStep(p, x, addend);
      addend := (addend + bdf / 8 % 32) % 65536;
      DeviceSumAt(p, x);
      DoSetupPciBus(p + [x], child);
      addend := (addend - bdf / 8 % 32) % 65536;
    }

    lemma DeviceSumAt(p: Path, x: byte)
      ensures DeviceSum(p + [x]) == DeviceSum(p) + x / 8
    {
      PathStep(p, x);
    }

    /** Close the range of the bridge at x once everything behind it is done. */
    method CloseBridge(bdf: nat, ghost regs0: ConfigSpace, ghost begun: ConfigSpace,
                       ghost p: Path, ghost x: byte, ghost hi: nat)
      requires Valid() && IsBus(root, p + [x]) && IsBus(root, p) && bdf == Number(root, p) * 256 + x
      requires x < hi <= SLOTS && NoBridgeBetween(root, p, x + 1, hi)
      requires Populated(root, regs0) && p + [x] in regs0 && Open(root, begun, p)
      requires maxBus == LastNumber(root, p + [x]) && Number(root, p + [x]) <= 255
      requires var r := MidwayAll(root, useI440fx, p, hi, regs0);
               && p + [x] in begun
               && begun == r[p + [x] := r[p + [x]].(secondary := Number(root, p + [x]), subordinate := 255)]
               && regs == FinalBelow(root, useI440fx, p + [x], begun)
      modifies `accesses, `regs
      ensures old(accesses) <= accesses
      ensures Valid() && Open(root, regs, p)
      ensures regs == MidwayAll(root, useI440fx, p, x, regs0)
    {
      hide WellFormed, Populated, AllIntended, Explained, Open, FinalBelow, MidwayAll, Number, LastNumber;
      ghost var b := p + [x];
      PathStep(p, x);
      FinalBelowFrame(root, useI440fx, b, begun);
      OpenFrame(root, begun, regs, p);
      assert At(regs, b) == At(begun, b);
      BusIsFunction(root, b);
      WriteAt(bdf, SubordinateBus, maxBus, p, x);
      BridgeDone(root, useI440fx, p, x, hi, regs0, begun, regs, Number(root, b), maxBus);
    }

    /** The whole of PCI setup; false stands for the panic on an unknown host bridge. */
    method SetupPci() returns (ok: bool)
      requires Valid() && bus == maxBus == 0 && addend == 0
      modifies this
      ensures old(accesses) <= accesses
      ensures Valid()
      ensures ok <==> HostIs(root, 0x1237) || HostIs(root, 0x29C0)
      ensures !ok ==> regs == old(regs) && setUp == old(setUp)
      ensures ok ==>
                && useI440fx == HostIs(root, 0x1237)
                && regs == FinalBelow(root, useI440fx, [], old(regs))
                && maxBus == Count(root) && addend == 0
                && setUp == old(setUp) + FoundFrom(root, [])
      ensures ok ==> FunctionsAfter(root, useI440fx, old(regs), regs) && AllConfigured(root, regs)
    {
      hide WellFormed, Populated, AllIntended, Explained, FinalBelow, FoundFrom, CountFrom;
      hide FunctionsAfter, AllConfigured, HostIs;
      HostIds(root);
      assert BusAt(root, []) == Some(root) && [] + [0] == [0];
      var id := ReadAt(0, VendorId, [], 0);
      if id == PCI_ID_82441 {
        useI440fx := true;
      } else if id == PCI_ID_Q35_MCH {
        useI440fx := false;
      } else {
        return false;
      }
      RunSetsUp(root, useI440fx, regs);
      EnumerationConfigures(root, useI440fx, regs);
      DoSetupPciBus([], root);
      return true;
    }
  }
}
