/** What a finished enumeration guarantees, stated about the hierarchy and the registers alone. */
module PciTheorems {
  import opened Bytes
  import opened PciTopology
  import opened PciRouting
  import opened PciPlan

  // ---------- bus numbers are a preorder numbering ----------

  /** The buses of the subtree at p, each before those behind it, highest devfn first. */
  ghost function Preorder(t: Bus, p: Path): seq<Path>
    decreases t, SLOTS + 1
  {
    [p] + PreorderBelow(t, p, SLOTS)
  }

  ghost function PreorderBelow(t: Bus, p: Path, hi: nat): seq<Path>
    requires hi <= SLOTS
    decreases t, hi
  {
    if hi == 0 then []
    else
      (if SlotOf(t, hi - 1).Bridge? then Preorder(SlotOf(t, hi - 1).child, p + [(hi - 1) as byte]) else [])
      + PreorderBelow(t, p, hi - 1)
  }

  /** The k-th bus of a subtree in preorder exists, belongs to the subtree, and has the k-th
      number from the one of the subtree's top. */
  lemma {:induction false} PreorderNumbers(root: Bus, t: Bus, p: Path)
    requires WellFormed(root) && BusAt(root, p) == Some(t)
    ensures |Preorder(t, p)| == 1 + Count(t)
    ensures forall k | 0 <= k < |Preorder(t, p)| ::
              var q := Preorder(t, p)[k];
              p <= q && IsBus(root, q) && Number(root, q) == Number(root, p) + k
    decreases t, SLOTS + 1
  {
    PreorderBelowNumbers(root, t, p, SLOTS);
    BusIsWellFormed(root, p);
    SlotCount(t);
  }

  lemma {:induction false} PreorderBelowNumbers(root: Bus, t: Bus, p: Path, hi: nat)
    requires WellFormed(root) && BusAt(root, p) == Some(t) && hi <= SLOTS
    ensures |PreorderBelow(t, p, hi)| + CountFrom(t, hi) == Count(t)
    ensures forall k | 0 <= k < |PreorderBelow(t, p, hi)| ::
              var q := PreorderBelow(t, p, hi)[k];
              p <= q && IsBus(root, q) && Number(root, q) == Number(root, p) + 1 + CountFrom(t, hi) + k
    decreases t, hi
  {
    hide WellFormed;
    BusIsWellFormed(root, p);
    SlotCount(t);
    if hi > 0 {
      var x := hi - 1;
      PreorderBelowNumbers(root, t, p, x);
      if t.slots[x].Bridge? {
        PathStep(p, x);
        ChildRange(root, p, x);
        PreorderNumbers(root, t.slots[x].child, p + [x as byte]);
      }
    }
  }

  lemma {:induction false} PreorderCovers(root: Bus, t: Bus, p: Path, q: Path)
    requires BusAt(root, p) == Some(t) && p <= q && IsBus(root, q)
    ensures q in Preorder(t, p)
    decreases |q| - |p|
  {
    if p != q {
      var x := q[|p|];
      var b := p + [x];
      PathStep(p, x);
      assert q[..|b|] == b;
      PrefixIsBus(root, q, |b|);
      PreorderCovers(root, SlotOf(t, x).child, b, q);
      PreorderPart(t, p, x, q, SLOTS);
    }
  }

  lemma {:induction false} PreorderPart(t: Bus, p: Path, x: byte, q: Path, hi: nat)
    requires x < hi <= SLOTS && SlotOf(t, x).Bridge? && q in Preorder(SlotOf(t, x).child, p + [x])
    ensures q in PreorderBelow(t, p, hi)
  {
    if x < hi - 1 {
      PreorderPart(t, p, x, q, hi - 1);
    }
  }

  /** Numbering a hierarchy and listing it in preorder are inverse to each other: the buses are
      numbered 0, 1, ..., Count(root), each number used exactly once. */
  lemma NumberingIsPreorder(root: Bus)
    requires WellFormed(root)
    ensures |Preorder(root, [])| == Count(root) + 1
    ensures forall k | 0 <= k <= Count(root) ::
              IsBus(root, Preorder(root, [])[k]) && Number(root, Preorder(root, [])[k]) == k
    ensures forall q | IsBus(root, q) ::
              Number(root, q) <= Count(root) && Preorder(root, [])[Number(root, q)] == q
  {
    PreorderNumbers(root, root, []);
    forall q | IsBus(root, q)
      ensures Number(root, q) <= Count(root) && Preorder(root, [])[Number(root, q)] == q
    {
      PreorderCovers(root, root, [], q);
    }
  }

  lemma {:induction false} NumbersAreDistinct(root: Bus, p: Path, q: Path)
    requires WellFormed(root) && IsBus(root, p) && IsBus(root, q)
    requires Number(root, p) == Number(root, q)
    ensures p == q
  {
    NumberingIsPreorder(root);
  }

  /** The range of a bridge is exactly the set of numbers of the buses behind it, so ranges of
      siblings are disjoint and ranges of nested bridges nest. */
  lemma {:induction false} RangeIsSubtree(root: Bus, p: Path, q: Path)
    requires WellFormed(root) && IsBus(root, p) && IsBus(root, q)
    ensures Number(root, p) <= Number(root, q) <= LastNumber(root, p) <==> p <= q
  {
    var t := BusAt(root, p).value;
    PreorderNumbers(root, t, p);
    if p <= q {
      PreorderCovers(root, t, p, q);
    } else if Number(root, p) <= Number(root, q) <= LastNumber(root, p) {
      NumbersAreDistinct(root, Preorder(t, p)[Number(root, q) - Number(root, p)], q);
    }
  }

  // ---------- the registers at the end ----------

  /** Whatever the registers held before, afterwards every bridge forwards exactly its subtree. */
  lemma EnumerationConfigures(root: Bus, i440fx: bool, regs: ConfigSpace)
    requires WellFormed(root) && Count(root) <= 255 && Populated(root, regs)
    ensures AllConfigured(root, FinalBelow(root, i440fx, [], regs))
  {
    hide WellFormed, Prepared;
    forall p | p != [] && IsBus(root, p)
      ensures p in regs && Configured(root, Final(root, i440fx, p, regs[p]), p)
    {
      BusIsFunction(root, p);
      BridgeByClass(root, p);
    }
  }

  /** After enumeration every function answers at exactly one bus/device/function address. */
  lemma {:induction false} OneAddressEach(root: Bus, i440fx: bool, regs: ConfigSpace, q: Path, b: nat, x: byte)
    requires WellFormed(root) && Count(root) <= 255 && Populated(root, regs) && IsFunction(root, q)
    ensures q in Targets(FinalBelow(root, i440fx, [], regs), b, x) <==>
            b == Number(root, Init(q)) && x == Last(q)
    ensures b == Number(root, Init(q)) && x == Last(q) ==>
              Targets(FinalBelow(root, i440fx, [], regs), b, x) == {q}
  {
    hide WellFormed, Final, Lands, Number, AllConfigured;
    var after := FinalBelow(root, i440fx, [], regs);
    EnumerationConfigures(root, i440fx, regs);
    TargetIs(root, after, q, b, x);
    if b == Number(root, Init(q)) && x == Last(q) {
      forall q' | q' in Targets(after, b, x) ensures q' == q {
        assert IsFunction(root, q');
        TargetIs(root, after, q', b, x);
        NumbersAreDistinct(root, Init(q), Init(q'));
        assert q == Init(q) + [Last(q)] && q' == Init(q') + [Last(q')];
      }
    }
  }

  lemma TargetIs(root: Bus, regs: ConfigSpace, q: Path, b: nat, x: byte)
    requires AllConfigured(root, regs) && IsFunction(root, q) && q in regs
    ensures q in Targets(regs, b, x) <==> b == Number(root, Init(q)) && x == Last(q)
  {
    hide Lands, Number, AllConfigured;
    FinalRouting(root, regs, Init(q), b);
  }

  // ---------- more than 255 bridges ----------

  lemma {:induction false} Pigeonhole(s: seq<nat>, m: nat) returns (i: nat, j: nat)
    requires |s| > m && forall k | 0 <= k < |s| :: s[k] < m
    ensures i < j < |s| && s[i] == s[j]
    decreases m
  {
    var n := |s| - 1;
    if k :| 0 <= k < n && s[k] == s[n] {
      i, j := k, n;
    } else {
      // Without the last value, the others fit into one value less: what was m - 1 takes its place.
      var r := seq(n, k requires 0 <= k < n => if s[k] == m - 1 then s[n] else s[k]);
      i, j := Pigeonhole(r, m - 1);
    }
  }

  /** A bus that can be reached at all is reached under one number of 8 bits. */
  lemma LandingNumber(root: Bus, regs: ConfigSpace, p: Path, b: nat)
    requires Lands(regs, p, b)
    ensures b < 256 && b == if p == [] then 0 else At(regs, p).secondary
  {
  }

  /** With more than 255 bridges no register contents keep the buses apart: if each can be reached,
      two of them answer to the same number. */
  lemma NumbersRunOut(root: Bus, regs: ConfigSpace) returns (p: Path, q: Path, b: nat)
    requires WellFormed(root) && Count(root) > 255
    requires forall r | IsBus(root, r) :: exists b: nat :: Lands(regs, r, b)
    ensures p != q && IsBus(root, p) && IsBus(root, q) && Lands(regs, p, b) && Lands(regs, q, b)
  {
    hide WellFormed, Lands, Preorder, Number;
    NumberingIsPreorder(root);
    var all := Preorder(root, []);
    var numbers := seq(|all|, k requires 0 <= k < |all| =>
      if all[k] == [] then 0 else At(regs, all[k]).secondary as nat);
    forall k | 0 <= k < |all| ensures numbers[k] < 256 && Lands(regs, all[k], numbers[k]) {
      var c: nat :| Lands(regs, all[k], c);
      LandingNumber(root, regs, all[k], c);
    }
    var i, j := Pigeonhole(numbers, 256);
    p, q, b := all[i], all[j], numbers[i];
    assert Number(root, p) == i && Number(root, q) == j;
  }

  // ---------- every function is set up exactly once ----------

  ghost function Times(q: Path, s: seq<Path>): nat {
    multiset(s)[q]
  }

  lemma {:induction false} FoundBelowOnce(t: Bus, p: Path, i: nat, q: Path)
    requires i <= SLOTS
    ensures Times(q, FoundBelow(t, p, i)) ==
            if |q| == |p| + 1 && p < q && Last(q) < i && Visible(t, Last(q)) then 1 else 0
  {
    hide Times, Visible;
    if i == 0 {
      NoTimes(q);
    } else {
      FoundBelowOnce(t, p, i - 1, q);
      PathStep(p, i - 1);
      OneMoreTime(q, FoundBelow(t, p, i - 1), p + [(i - 1) as byte]);
      assert |q| == |p| + 1 && p < q && Last(q) == i - 1 ==> q == p + [(i - 1) as byte];
    }
  }

  lemma NoTimes(q: Path)
    ensures Times(q, []) == 0
  {
  }

  lemma OneMoreTime(q: Path, s: seq<Path>, x: Path)
    ensures Times(q, s + [x]) == Times(q, s) + if q == x then 1 else 0
    ensures Times(q, s + []) == Times(q, s)
  {
    assert s + [] == s;
  }

  lemma VisibleBehind(root: Bus, p: Path, q: Path)
    requires p < q && |q| > |p| + 1 && IsVisible(root, q)
    ensures IsBus(root, p + [q[|p|]])
  {
    PrefixIsBus(root, q, |p| + 1);
    assert q[..|p| + 1] == p + [q[|p|]];
  }

  /** q is a visible function behind a bridge of bus p that sits below slot hi. */
  ghost predicate BehindBelow(root: Bus, p: Path, hi: nat, q: Path) {
    p < q && |q| > |p| + 1 && q[|p|] < hi && IsVisible(root, q)
  }

  lemma BehindStep(root: Bus, p: Path, x: byte, q: Path)
    requires IsBus(root, p)
    ensures BehindBelow(root, p, x + 1, q) <==>
              BehindBelow(root, p, x, q) || (IsBus(root, p + [x]) && p + [x] < q && IsVisible(root, q))
    ensures !(BehindBelow(root, p, x, q) && p + [x] < q)
  {
    if p < q && |q| > |p| + 1 && q[|p|] == x && IsVisible(root, q) {
      VisibleBehind(root, p, q);
    }
  }

  lemma {:induction false} FoundBehindOnce(root: Bus, t: Bus, p: Path, hi: nat, q: Path)
    requires BusAt(root, p) == Some(t) && hi <= SLOTS
    ensures Times(q, FoundBehind(t, p, hi)) == if BehindBelow(root, p, hi, q) then 1 else 0
    decreases t, hi
  {
    hide IsVisible, FoundFrom;
    if hi > 0 {
      var x: byte := hi - 1;
      var s := SlotOf(t, x);
      FoundBehindOnce(root, t, p, x, q);
      PathStep(p, x);
      assert BusAt(root, p + [x]) == if s.Bridge? then Some(s.child) else None;
      BehindStep(root, p, x, q);
      hide BehindBelow, BusAt;
      if s.Bridge? {
        FoundOnce(root, s.child, p + [x], q);
      }
    }
  }

  lemma {:induction false} FoundOnce(root: Bus, t: Bus, p: Path, q: Path)
    requires BusAt(root, p) == Some(t)
    ensures Times(q, FoundFrom(t, p)) == if p < q && IsVisible(root, q) then 1 else 0
    decreases t, SLOTS + 1
  {
    FoundBelowOnce(t, p, SLOTS, q);
    FoundBehindOnce(root, t, p, SLOTS, q);
    if |q| == |p| + 1 && p < q {
      assert Init(q) == p;
    }
  }

  /** One enumeration sets up every function that software can find, once, and nothing else. */
  lemma SetUpExactlyOnce(root: Bus, q: Path)
    ensures Times(q, FoundFrom(root, [])) == if IsVisible(root, q) then 1 else 0
  {
    FoundOnce(root, root, [], q);
  }

  // ---------- interrupt routing ----------

  /** The pin a function's interrupt arrives on at the root bus when every bridge on the way
      turns it by the number of the device behind it (section 9.1 of the PCI-to-PCI Bridge
      Architecture Specification 1.2), and the root bus does so once more. Pins count from 0. */
  ghost function Swizzle(p: Path, pin: nat): nat {
    if p == [] then pin else Swizzle(Init(p), (pin + DeviceNumber(Last(p))) % 4)
  }

  lemma {:induction false} SwizzleIsSum(p: Path, pin: nat)
    requires pin < 4
    ensures Swizzle(p, pin) == (pin + DeviceSum(p)) % 4
  {
    if p != [] {
      var d := DeviceNumber(Last(p));
      SwizzleIsSum(Init(p), (pin + d) % 4);
      ModSum(pin + d, DeviceSum(Init(p)), 4);
    }
  }

  /** With i440fx routing the line of a function is chosen by bit 1 of its swizzled pin. */
  lemma LineFollowsSwizzle(p: Path, pin: nat)
    requires p != [] && 1 <= pin <= 4
    ensures InterruptLine(true, p, pin) == if Swizzle(p, pin - 1) >= 2 then 11 else 10
  {
    SwizzleIsSum(p, pin - 1);
  }

  /** What software sees, by the registers: a vendor number that is neither all zeros nor all ones, and for
      functions 1 to 7 the same of function 0 together with bit 7 of its header type. */
  lemma VisibleByBits(root: Bus, p: Path)
    requires IsFunction(root, p)
    ensures p != [] && BusAt(root, Init(p)).Some?
    ensures var f, f0 := SlotAt(root, p), SlotOf(BusAt(root, Init(p)).value, Last(p) / 8 * 8);
            IsVisible(root, p) <==>
              && f.hdr.vendor !in {0x0000, 0xFFFF}
              && (Last(p) % 8 == 0 ||
                   (!f0.Empty? && f0.hdr.vendor !in {0x0000, 0xFFFF} && f0.hdr.headerType / 0x80 == 1))
  {
    assert Last(p) - Last(p) % 8 == Last(p) / 8 * 8;
  }

  // ---------- one function before and after a run ----------

  /** The interrupt line of the function at p after a run. A line that was set already stays, and so
      do those of functions without a pin and of hidden ones. In i440fx mode the pin, counted from 0,
      is swizzled up to the root bus; in Q35 mode the slots above 24 do not turn it. */
  ghost predicate LineAfter(root: Bus, i440fx: bool, p: Path, before: byte, after: byte)
    requires p != [] && IsFunction(root, p)
  {
    var pin, dev := SlotAt(root, p).hdr.pin, Last(p) / 8;
    if IsVisible(root, p) && pin != 0 && before == 0 then
      if i440fx then
        && after == (if (DeviceSum(Init(p)) + pin + dev - 1) % 4 >= 2 then 11 else 10)
        && after == (if Swizzle(p, (pin - 1) % 4) >= 2 then 11 else 10)
      else
        after == if (DeviceSum(Init(p)) + pin + if dev <= 24 then dev else 0) % 4 >= 2 then 11 else 10
    else after == before
  }

  /** The bridge control register: a visible function with an odd header type has the SERR bit set, and
      no other bit changes. */
  ghost predicate ControlAfter(root: Bus, p: Path, before: uint16, after: uint16)
    requires p != [] && IsFunction(root, p)
  {
    if IsVisible(root, p) && SlotAt(root, p).hdr.headerType % 2 == 1 then
      after / 2 % 2 == 1 && after % 2 == before % 2 && after / 4 == before / 4
    else after == before
  }

  /** The registers that are only written: visible IDE controllers answer at the legacy ports, the two
      Intel ones are enabled, and nothing else changes. */
  ghost predicate OthersAfter(root: Bus, p: Path, before: map<nat, nat>, after: map<nat, nat>)
    requires p != [] && IsFunction(root, p)
  {
    var hdr := SlotAt(root, p).hdr;
    var ide := IsVisible(root, p) && hdr.classCode == 0x0101;
    var enabled := ide && hdr.vendor == 0x8086 && (hdr.device == 0x7010 || hdr.device == 0x7111);
    && (ide ==> {0x10, 0x14, 0x18, 0x1c} <= after.Keys && after[0x10] == 0x1f0 && after[0x14] == 0x3f4
                && after[0x18] == 0x170 && after[0x1c] == 0x374)
    && (enabled ==> {0x40, 0x42} <= after.Keys && after[0x40] == 0x8000 && after[0x42] == 0x8000)
    && forall o: nat | !(ide && o in {0x10, 0x14, 0x18, 0x1c}) && !(enabled && o in {0x40, 0x42}) ::
         (o in after <==> o in before) && (o in after ==> after[o] == before[o])
  }

  /** The bus numbers: those of bridges are the preorder ones, of other functions unchanged. */
  ghost predicate NumbersAfter(root: Bus, p: Path, before: Registers, after: Registers)
    requires p != [] && IsFunction(root, p)
  {
    if IsBus(root, p) then Configured(root, after, p)
    else after.primary == before.primary && after.secondary == before.secondary
         && after.subordinate == before.subordinate
  }

  /** Everything a run does to the functions of a hierarchy. */
  ghost predicate FunctionsAfter(root: Bus, i440fx: bool, before: ConfigSpace, after: ConfigSpace) {
    && after.Keys == before.Keys
    && forall p {:trigger after[p]} | p != [] && IsFunction(root, p) && p in before ::
         && LineAfter(root, i440fx, p, before[p].line, after[p].line)
         && ControlAfter(root, p, before[p].control, after[p].control)
         && OthersAfter(root, p, before[p].others, after[p].others)
         && NumbersAfter(root, p, before[p], after[p])
  }

  lemma RunSetsUp(root: Bus, i440fx: bool, regs: ConfigSpace)
    requires WellFormed(root) && Count(root) <= 255 && Populated(root, regs)
    ensures FunctionsAfter(root, i440fx, regs, FinalBelow(root, i440fx, [], regs))
  {
    hide WellFormed, Final, LineAfter, ControlAfter, OthersAfter, NumbersAfter;
    forall p | p != [] && IsFunction(root, p) && p in regs
      ensures var r := Final(root, i440fx, p, regs[p]);
              && LineAfter(root, i440fx, p, regs[p].line, r.line)
              && ControlAfter(root, p, regs[p].control, r.control)
              && OthersAfter(root, p, regs[p].others, r.others)
              && NumbersAfter(root, p, regs[p], r)
    {
      FunctionSetUp(root, i440fx, p, regs[p]);
    }
  }

  lemma FunctionSetUp(root: Bus, i440fx: bool, p: Path, r: Registers)
    requires WellFormed(root) && Count(root) <= 255 && IsFunction(root, p) && p != []
    ensures var s := Final(root, i440fx, p, r);
            && LineAfter(root, i440fx, p, r.line, s.line) && ControlAfter(root, p, r.control, s.control)
            && OthersAfter(root, p, r.others, s.others) && NumbersAfter(root, p, r, s)
  {
    hide WellFormed, WithLine, WithSerr, WithIde, LineAfter, ControlAfter, OthersAfter;
    var hdr := SlotAt(root, p).hdr;
    var a := WithLine(i440fx, p, hdr.pin, r);
    var b := WithSerr(hdr.headerType, a);
    LineKeepsRest(i440fx, p, hdr.pin, r);
    SerrKeepsRest(hdr.headerType, a);
    IdeKeepsRest(hdr, b);
    if IsBus(root, p) {
      BridgeByClass(root, p);
    }
    LineIsAfter(root, i440fx, p, r);
    ControlIsAfter(root, p, a);
    OthersAreAfter(root, p, b);
  }

  lemma LineKeepsRest(i440fx: bool, p: Path, pin: nat, r: Registers)
    requires p != []
    ensures var s := WithLine(i440fx, p, pin, r); s == r.(line := s.line)
  {
    hide InterruptLine;
  }

  lemma SerrKeepsRest(headerType: byte, r: Registers)
    ensures var s := WithSerr(headerType, r); s == r.(control := s.control)
  {
  }

  lemma IdeKeepsRest(hdr: Header, r: Registers)
    ensures var s := WithIde(hdr, r); s == r.(others := s.others)
  {
  }

  lemma LineIsAfter(root: Bus, i440fx: bool, p: Path, r: Registers)
    requires p != [] && IsFunction(root, p)
    ensures LineAfter(root, i440fx, p, r.line,
                      if IsVisible(root, p) then WithLine(i440fx, p, SlotAt(root, p).hdr.pin, r).line else r.line)
  {
    hide IsVisible, SlotAt, InterruptLine, Swizzle;
    var pin, dev := SlotAt(root, p).hdr.pin, Last(p) / 8;
    if IsVisible(root, p) && pin != 0 {
      LineBySum(i440fx, p, pin);
      SwizzleIsSum(p, (pin - 1) % 4);
      SwizzledSum(pin, DeviceSum(Init(p)), dev);
    }
  }

  lemma LineBySum(i440fx: bool, p: Path, pin: nat)
    requires p != [] && pin > 0
    ensures var dev := Last(p) / 8;
            InterruptLine(i440fx, p, pin) ==
            if (DeviceSum(Init(p)) + pin + if i440fx then dev - 1 else if dev <= 24 then dev else 0) % 4 >= 2
            then 11 else 10
  {
    hide DeviceSum;
    var dev := Last(p) / 8;
    UpperHalf(DeviceSum(Init(p)) + pin + if i440fx then dev - 1 else if dev <= 24 then dev else 0);
  }

  lemma UpperHalf(n: int)
    ensures n / 2 % 2 == 1 <==> n % 4 >= 2
  {
    BitOf(n / 4, n % 4);
    assert n == 4 * (n / 4) + n % 4;
  }

  lemma SwizzledSum(pin: nat, sum: nat, dev: nat)
    requires pin > 0
    ensures ((pin - 1) % 4 + (sum + dev)) % 4 == (sum + pin + dev - 1) % 4
  {
    ModSum(pin - 1, sum + dev, 4);
  }

  lemma ControlIsAfter(root: Bus, p: Path, r: Registers)
    requires p != [] && IsFunction(root, p)
    ensures ControlAfter(root, p, r.control,
                         if IsVisible(root, p) then WithSerr(SlotAt(root, p).hdr.headerType, r).control else r.control)
  {
    hide IsVisible, SlotAt;
    BitSet(r.control);
  }

  lemma BitSet(c: uint16)
    ensures c / 2 % 2 == 0 ==> (c + 2) / 2 % 2 == 1 && (c + 2) % 2 == c % 2 && (c + 2) / 4 == c / 4
  {
  }

  lemma OthersAreAfter(root: Bus, p: Path, r: Registers)
    requires p != [] && IsFunction(root, p)
    ensures OthersAfter(root, p, r.others,
                        if IsVisible(root, p) then WithIde(SlotAt(root, p).hdr, r).others else r.others)
  {
    hide IsVisible, SlotAt;
  }
}
