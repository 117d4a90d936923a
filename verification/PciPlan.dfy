/** What enumeration computes, function by function: the registers a scan leaves, the registers
    that are final, the order of the work, and the interrupt line. */
module PciPlan {
  import opened Bytes
  import opened PciTopology
  import opened PciRouting

  function DeviceNumber(x: byte): nat {
    x / 8
  }

  ghost function DeviceSum(p: Path): nat {
    if p == [] then 0 else DeviceSum(Init(p)) + DeviceNumber(Last(p))
  }

  /** The 16-bit running sum follows the path down, and up again. */
  lemma DeviceSumStep(p: Path, x: byte, addend: nat)
    requires addend == DeviceSum(p) % 65536
    ensures (addend + x / 8) % 65536 == DeviceSum(p + [x]) % 65536
    ensures ((addend + x / 8) % 65536 - x / 8) % 65536 == addend
  {
    PathStep(p, x);
  }

  /** The interrupt line for a function at p with the given pin: the device numbers of all
      bridges above it, its pin, and its own slot in the way of the chipset. */
  ghost function InterruptLine(i440fx: bool, p: Path, pin: nat): byte
    requires p != [] && pin > 0
  {
    var dev := DeviceNumber(Last(p));
    var link := DeviceSum(Init(p)) + pin + if i440fx then dev - 1 else if dev <= 24 then dev else 0;
    if link / 2 % 2 == 1 then 11 else 10
  }

  /** The 16-bit running sum and the masking to two bits lose nothing that matters. */
  lemma LineFromSum(i440fx: bool, p: Path, x: byte, pin: nat, addend: nat, link: int)
    requires pin > 0 && addend == DeviceSum(p) % 65536
    requires link == addend + pin + if i440fx then x / 8 - 1 else if x / 8 <= 24 then x / 8 else 0
    ensures InterruptLine(i440fx, p + [x], pin) == if link % 4 / 2 % 2 == 1 then 11 else 10
  {
    PathStep(p, x);
    var h, k := DeviceSum(p) / 65536, link - addend;
    assert DeviceSum(p) == 65536 * h + addend;
    SecondBit(addend + k, h);
  }

  /** Bit 1 does not depend on what is above it. */
  lemma SecondBit(n: int, h: int)
    ensures n % 4 / 2 % 2 == (n + 65536 * h) / 2 % 2
  {
    var a, r := n / 4, n % 4;
    assert n == 4 * a + r;
    BitOf(a, r);
    BitOf(a + 16384 * h, r);
  }

  lemma BitOf(a: int, r: int)
    requires 0 <= r < 4
    ensures (4 * a + r) / 2 % 2 == r / 2 == r / 2 % 2
  {
    assert (4 * a + r) / 2 == 2 * a + r / 2;
  }

  ghost function WithLine(i440fx: bool, p: Path, pin: nat, r: Registers): Registers
    requires p != []
  {
    if pin != 0 && r.line == 0 then r.(line := InterruptLine(i440fx, p, pin)) else r
  }

  /** SERR forwarding, for functions whose header type says bridge. */
  function WithSerr(headerType: byte, r: Registers): Registers {
    if headerType % 2 == 1 && r.control / 2 % 2 == 0 then r.(control := r.control + 2) else r
  }

  predicate IsIntelIde(hdr: Header) {
    hdr.vendor == 0x8086 && (hdr.device == 0x7010 || hdr.device == 0x7111)
  }

  /** The legacy ports of an IDE controller, and the enable bits of those in the two Intel bridges. */
  function WithIde(hdr: Header, r: Registers): Registers {
    if hdr.classCode != CLASS_STORAGE_IDE then r
    else
      var s := r.(others := r.others[0x10 := 0x1f0][0x14 := 0x3f4][0x18 := 0x170][0x1c := 0x374]);
      if IsIntelIde(hdr) then
        s.(others := s.others[0x40 := 0x8000][0x42 := 0x8000])
      else s
  }

  /** The registers of a function after its setup, apart from what its bus numbers need. */
  ghost function Prepared(i440fx: bool, p: Path, hdr: Header, r: Registers): Registers
    requires p != []
  {
    WithIde(hdr, WithSerr(hdr.headerType, WithLine(i440fx, p, hdr.pin, r)))
  }

  /** None of this touches a register that routing depends on. */
  lemma PreparedRoutesSame(i440fx: bool, p: Path, hdr: Header, r: Registers)
    requires p != []
    ensures var s := Prepared(i440fx, p, hdr, r);
            s.primary == r.primary && s.secondary == r.secondary && s.subordinate == r.subordinate
  {
  }

  /** The registers of the function at p once its bus has been scanned: a bridge is blocked and
      linked to the bridge found before it. */
  ghost function Scanned(root: Bus, i440fx: bool, p: Path, r: Registers): Registers
    requires Count(root) <= 255
  {
    if !IsVisible(root, p) then r
    else
      var s := Prepared(i440fx, p, SlotAt(root, p).hdr, r);
      if IsBus(root, p) then
        RangeBound(root, Init(p));
        s.(primary := Number(root, Init(p)),
           secondary := PreviousBridge(BusAt(root, Init(p)).value, Last(p)),
           subordinate := 0)
      else s
  }

  /** The registers of the function at p after enumeration: a bridge owns exactly its subtree. */
  ghost function Final(root: Bus, i440fx: bool, p: Path, r: Registers): Registers
    requires Count(root) <= 255
  {
    if !IsVisible(root, p) then r
    else
      var s := Prepared(i440fx, p, SlotAt(root, p).hdr, r);
      if IsBus(root, p) then
        RangeBound(root, p);
        RangeBound(root, Init(p));
        s.(primary := Number(root, Init(p)),
           secondary := Number(root, p),
           subordinate := LastNumber(root, p))
      else s
  }

  /** While the bridges of bus p are taken up from the highest devfn down: everything from hi
      upwards is final, the rest of bus p is scanned, and the buses behind it are untouched. */
  ghost function Midway(root: Bus, i440fx: bool, p: Path, hi: nat, q: Path, r: Registers): Registers
    requires Count(root) <= 255
  {
    if !(p < q) then r
    else if q[|p|] >= hi then Final(root, i440fx, q, r)
    else if |q| == |p| + 1 then Scanned(root, i440fx, q, r)
    else r
  }

  /** The configuration space after the scan has passed the slots of bus p below i. */
  ghost function ScanTo(root: Bus, i440fx: bool, p: Path, i: nat, regs: ConfigSpace): ConfigSpace
    requires Count(root) <= 255 && i <= SLOTS
  {
    if i == 0 then regs
    else
      var r := ScanTo(root, i440fx, p, i - 1, regs);
      var q := p + [(i - 1) as byte];
      if q in r then r[q := Scanned(root, i440fx, q, r[q])] else r
  }

  /** The functions of bus p below slot i, as a scan meets them. */
  ghost function FoundBelow(t: Bus, p: Path, i: nat): seq<Path>
    requires i <= SLOTS
  {
    if i == 0 then []
    else FoundBelow(t, p, i - 1) + if Visible(t, i - 1) then [p + [(i - 1) as byte]] else []
  }

  predicate FunctionZeroAdmits(t: Bus, d: nat) {
    Present(SlotOf(t, d * 8)) && MultiFunction(SlotOf(t, d * 8))
  }

  /** The multi-function rule, device by device. */
  lemma FunctionZero(t: Bus, d: nat, f: nat)
    requires f < 8
    ensures f == 0 || FunctionZeroAdmits(t, d) ==>
              (Visible(t, d * 8 + f) <==> Present(SlotOf(t, d * 8 + f)))
    ensures !FunctionZeroAdmits(t, d) ==> forall j | d * 8 < j < d * 8 + 8 :: !Visible(t, j)
  {
    forall j | d * 8 <= j < d * 8 + 8 ensures j - j % 8 == d * 8 {
    }
  }

  lemma {:induction false} HiddenFound(t: Bus, p: Path, i: nat, k: nat)
    requires i <= k <= SLOTS
    requires forall j | i <= j < k :: !Visible(t, j)
    ensures FoundBelow(t, p, k) == FoundBelow(t, p, i)
  {
    if i < k { HiddenFound(t, p, i, k - 1); }
  }

  lemma {:induction false} ScanHidden(root: Bus, i440fx: bool, p: Path, i: nat, k: nat, regs: ConfigSpace)
    requires Count(root) <= 255 && IsBus(root, p) && i <= k <= SLOTS
    requires forall j | i <= j < k :: !Visible(BusAt(root, p).value, j)
    ensures ScanTo(root, i440fx, p, k, regs) == ScanTo(root, i440fx, p, i, regs)
  {
    if i < k {
      ScanHidden(root, i440fx, p, i, k - 1, regs);
      PathStep(p, k - 1);
      assert !IsVisible(root, p + [(k - 1) as byte]);
      var r := ScanTo(root, i440fx, p, k - 1, regs);
      var q := p + [(k - 1) as byte];
      if q in r { assert r[q := r[q]] == r; }
    }
  }

  /** All functions of the subtree at p: those of its own bus, then the buses behind it. */
  ghost function FoundFrom(t: Bus, p: Path): seq<Path>
    decreases t, SLOTS + 1
  {
    FoundBelow(t, p, SLOTS) + FoundBehind(t, p, SLOTS)
  }

  ghost function FoundBehind(t: Bus, p: Path, hi: nat): seq<Path>
    requires hi <= SLOTS
    decreases t, hi
  {
    if hi == 0 then []
    else
      (if SlotOf(t, hi - 1).Bridge? then FoundFrom(SlotOf(t, hi - 1).child, p + [(hi - 1) as byte]) else [])
      + FoundBehind(t, p, hi - 1)
  }

  // ---------- whole configuration spaces ----------

  lemma {:induction false} ScanToAt(root: Bus, i440fx: bool, p: Path, i: nat, regs: ConfigSpace)
    requires Count(root) <= 255 && i <= SLOTS
    ensures ScanTo(root, i440fx, p, i, regs).Keys == regs.Keys
    ensures forall q | q in regs ::
              ScanTo(root, i440fx, p, i, regs)[q] ==
              if p < q && |q| == |p| + 1 && Last(q) < i then Scanned(root, i440fx, q, regs[q]) else regs[q]
  {
    hide Scanned;
    if i > 0 {
      ScanToAt(root, i440fx, p, i - 1, regs);
      PathStep(p, i - 1);
      forall q | q in regs && p < q && |q| == |p| + 1 && Last(q) == i - 1 ensures q == p + [(i - 1) as byte] {
      }
    }
  }

  ghost function MidwayAll(root: Bus, i440fx: bool, p: Path, hi: nat, regs: ConfigSpace): ConfigSpace
    requires Count(root) <= 255
  {
    map q | q in regs :: Midway(root, i440fx, p, hi, q, regs[q])
  }

  /** The configuration space after everything below bus p is done. */
  ghost function FinalBelow(root: Bus, i440fx: bool, p: Path, regs: ConfigSpace): ConfigSpace
    requires Count(root) <= 255
  {
    map q | q in regs :: if p < q then Final(root, i440fx, q, regs[q]) else regs[q]
  }

  lemma FinalBelowFrame(root: Bus, i440fx: bool, p: Path, regs: ConfigSpace)
    requires Count(root) <= 255
    ensures FinalBelow(root, i440fx, p, regs).Keys == regs.Keys
    ensures forall q: Path | |q| <= |p| :: At(FinalBelow(root, i440fx, p, regs), q) == At(regs, q)
  {
  }

  lemma MidwayStart(root: Bus, i440fx: bool, p: Path, regs: ConfigSpace)
    requires Count(root) <= 255
    ensures ScanTo(root, i440fx, p, SLOTS, regs) == MidwayAll(root, i440fx, p, SLOTS, regs)
  {
    hide Scanned;
    ScanToAt(root, i440fx, p, SLOTS, regs);
  }

  /** Where no bridge stands there is at most one function, and scanning is all it needs. */
  lemma NothingBehind(root: Bus, i440fx: bool, p: Path, q: Path, r: Registers)
    requires Count(root) <= 255 && p < q && IsFunction(root, q)
    requires !IsBus(root, p + [q[|p|]])
    ensures |q| == |p| + 1 && Scanned(root, i440fx, q, r) == Final(root, i440fx, q, r)
  {
    hide Prepared;
    assert q[..|p| + 1] == p + [q[|p|]];
    if |q| > |p| + 1 {
      PrefixIsBus(root, q, |p| + 1);
    } else {
      assert q == q[..|p| + 1];
    }
  }

  /** With no bridge left below hi, everything below bus p is final. */
  lemma MidwayEnd(root: Bus, i440fx: bool, p: Path, hi: nat, regs: ConfigSpace)
    requires Count(root) <= 255 && Populated(root, regs)
    requires NoBridgeBetween(root, p, 0, hi)
    ensures MidwayAll(root, i440fx, p, hi, regs) == FinalBelow(root, i440fx, p, regs)
  {
    hide Scanned, Final, IsBus, IsFunction;
    forall q | q in regs && p < q && q[|p|] < hi
      ensures Midway(root, i440fx, p, hi, q, regs[q]) == Final(root, i440fx, q, regs[q])
    {
      NothingBehind(root, i440fx, p, q, regs[q]);
    }
  }

  /** The registers of a bridge that has been scanned, opened and closed are final. */
  lemma ClosedIsFinal(root: Bus, i440fx: bool, p: Path, x: byte, r: Registers)
    requires WellFormed(root) && Count(root) <= 255 && IsBus(root, p + [x])
    ensures Number(root, p + [x]) <= LastNumber(root, p + [x]) <= 255
    ensures Scanned(root, i440fx, p + [x], r).(
              secondary := Number(root, p + [x]), subordinate := LastNumber(root, p + [x])) ==
            Final(root, i440fx, p + [x], r)
  {
    hide Prepared;
    RangeBound(root, p + [x]);
    BusIsFunction(root, p + [x]);
    BridgeByClass(root, p + [x]);
  }

  /** Opening the bridge at x, finishing the bus behind it and closing its range turns the
      state in which everything from hi upwards is final into the one for x. */
  lemma BridgeDone(root: Bus, i440fx: bool, p: Path, x: byte, hi: nat, regs: ConfigSpace,
                   begun: ConfigSpace, closed: ConfigSpace, number: byte, last: byte)
    requires WellFormed(root) && Count(root) <= 255 && Populated(root, regs)
    requires IsBus(root, p + [x]) && x < hi && p + [x] in regs && p + [x] in begun
    requires NoBridgeBetween(root, p, x + 1, hi)
    requires number == Number(root, p + [x]) && last == LastNumber(root, p + [x])
    requires var b := p + [x];
             var r := MidwayAll(root, i440fx, p, hi, regs);
             && begun == r[b := r[b].(secondary := number, subordinate := 255)]
             && closed == FinalBelow(root, i440fx, b, begun)[b := begun[b].(subordinate := last)]
    ensures closed == MidwayAll(root, i440fx, p, x, regs)
  {
    hide Scanned, Final, IsBus, IsFunction, Number, LastNumber;
    var b := p + [x];
    ClosedIsFinal(root, i440fx, p, x, regs[b]);
    forall q | q in regs ensures closed[q] == Midway(root, i440fx, p, x, q, regs[q]) {
      if q != b && p < q {
        assert b <= q <==> q[|p|] == x;
        if x < q[|p|] < hi {
          NothingBehind(root, i440fx, p, q, regs[q]);
        }
      }
    }
  }

  /** While the bridge at x of bus p is taken up, its siblings reach no number from its own
      upwards: those before it are final and end below it, those after it are blocked. */
  lemma SiblingsEndBelow(root: Bus, i440fx: bool, p: Path, x: byte, hi: nat, regs: ConfigSpace)
    requires WellFormed(root) && Count(root) <= 255 && Populated(root, regs)
    requires IsBus(root, p + [x]) && x < hi
    requires NoBridgeBetween(root, p, x + 1, hi)
    ensures forall y: byte | IsBus(root, p + [y]) && y != x ::
              At(MidwayAll(root, i440fx, p, hi, regs), p + [y]).subordinate < Number(root, p + [x])
  {
    PathStep(p, x);
    ChildRange(root, p, x);
    forall y: byte | IsBus(root, p + [y]) && y != x
      ensures At(MidwayAll(root, i440fx, p, hi, regs), p + [y]).subordinate < Number(root, p + [x])
    {
      SiblingEndsBelow(root, i440fx, p, x, y, hi, regs);
    }
  }

  lemma SiblingEndsBelow(root: Bus, i440fx: bool, p: Path, x: byte, y: byte, hi: nat, regs: ConfigSpace)
    requires WellFormed(root) && Count(root) <= 255 && Populated(root, regs)
    requires IsBus(root, p + [x]) && IsBus(root, p + [y]) && x < hi && (y < x || hi <= y)
    ensures At(MidwayAll(root, i440fx, p, hi, regs), p + [y]).subordinate < Number(root, p + [x])
  {
    hide Prepared;
    PathStep(p, x);
    PathStep(p, y);
    BusIsFunction(root, p + [y]);
    BridgeByClass(root, p + [y]);
    ChildRange(root, p, x);
    if hi <= y {
      SiblingRange(root, p, x, y);
    }
  }

  lemma {:induction false} FoundBehindSkip(t: Bus, p: Path, i: nat, k: nat)
    requires i <= k <= SLOTS && forall j | i <= j < k :: !SlotOf(t, j).Bridge?
    ensures FoundBehind(t, p, k) == FoundBehind(t, p, i)
  {
    if i < k {
      FoundBehindSkip(t, p, i, k - 1);
      assert FoundBehind(t, p, k) == [] + FoundBehind(t, p, k - 1);
    }
  }

  lemma FoundBehindStep(t: Bus, p: Path, x: byte, hi: nat)
    requires x < hi <= SLOTS && SlotOf(t, x).Bridge? && forall j | x < j < hi :: !SlotOf(t, j).Bridge?
    ensures FoundBehind(t, p, hi) == FoundFrom(SlotOf(t, x).child, p + [x]) + FoundBehind(t, p, x)
  {
    FoundBehindSkip(t, p, x + 1, hi);
  }

  lemma NothingFound(t: Bus, p: Path)
    ensures FoundBehind(t, p, 0) == []
  {
  }

  /** Until it is overwritten, the secondary bus register of a bridge holds the list link. */
  lemma {:induction false} LinkIsPrevious(root: Bus, i440fx: bool, p: Path, x: byte, hi: nat, regs: ConfigSpace)
    requires WellFormed(root) && Count(root) <= 255 && Populated(root, regs)
    requires IsBus(root, p + [x]) && x < hi
    ensures p + [x] in regs
    ensures At(MidwayAll(root, i440fx, p, hi, regs), p + [x]).secondary ==
            PreviousBridge(BusAt(root, p).value, x)
  {
    hide Prepared;
    PathStep(p, x);
    BusIsFunction(root, p + [x]);
    BridgeByClass(root, p + [x]);
  }
}
