/** The PCI hierarchy below the host bridge, as a finite tree, and the numbering that a
    preorder walk of it gives. Nothing here changes: registers live in `PciRouting`. */
module PciTopology {
  import opened Bytes

  const SLOTS: nat := 256
  const CLASS_BRIDGE_PCI: nat := 0x0604
  const CLASS_STORAGE_IDE: nat := 0x0101

  /** The read-only part of a function's configuration space. */
  datatype Header = Header(vendor: uint16, device: uint16, classCode: uint16, headerType: byte, pin: byte)

  /** One of the 256 device/function positions of a bus. A bridge owns the bus behind it. */
  datatype Slot = Empty | Device(hdr: Header) | Bridge(hdr: Header, child: Bus)

  datatype Bus = Bus(slots: seq<Slot>)

  /** A function is named by the devfns of the bridges above it followed by its own devfn;
      a bus is named like the bridge that owns it, the root bus by []. */
  type Path = seq<byte>

  function Init(p: Path): Path
    requires p != []
  {
    p[..|p| - 1]
  }

  function Last(p: Path): byte
    requires p != []
  {
    p[|p| - 1]
  }

  /** A vendor number of 0x0000 or 0xFFFF means that nobody answers. */
  predicate Present(s: Slot) {
    !s.Empty? && s.hdr.vendor != 0 && s.hdr.vendor != 0xFFFF
  }

  predicate MultiFunction(s: Slot) {
    !s.Empty? && s.hdr.headerType >= 0x80
  }

  function SlotOf(t: Bus, x: nat): Slot {
    if x < |t.slots| then t.slots[x] else Empty
  }

  /** Whether software that follows the multi-function rule finds the function at x:
      functions 1 to 7 count only beside a function 0 that says so. */
  predicate Visible(t: Bus, x: nat) {
    && Present(SlotOf(t, x))
    && (x % 8 == 0 || (Present(SlotOf(t, x - x % 8)) && MultiFunction(SlotOf(t, x - x % 8))))
  }

  /** A hierarchy that obeys the PCI rules: every bridge can be found by software, and a
      function has the PCI-to-PCI bridge class exactly when it is a bridge. */
  ghost predicate WellFormed(t: Bus) {
    && |t.slots| == SLOTS
    && (forall s | s in t.slots ::
          && (!s.Empty? ==> (s.Bridge? <==> s.hdr.classCode == 0x0604))
          && (s.Bridge? ==> WellFormed(s.child)))
    && (forall x: nat {:trigger Visible(t, x)} | SlotOf(t, x).Bridge? :: Visible(t, x))
  }

  /** How many bridges sit at the slots i, i + 1, ... of t, counting those behind them. */
  ghost function CountFrom(t: Bus, i: nat): nat
    decreases t, |t.slots| - i
  {
    if i >= |t.slots| then 0
    else if t.slots[i].Bridge? then 1 + CountFrom(t.slots[i].child, 0) + CountFrom(t, i + 1)
    else CountFrom(t, i + 1)
  }

  /** How many bridges, and so how many buses, there are below bus t. */
  ghost function Count(t: Bus): nat {
    CountFrom(t, 0)
  }

  /** The last bridge below slot i, or 0xFF: what a list head shows after a scan of [0, i). */
  ghost function PreviousBridge(t: Bus, i: nat): byte
    requires i <= SLOTS
  {
    if i == 0 then 0xFF
    else if SlotOf(t, i - 1).Bridge? then i - 1
    else PreviousBridge(t, i - 1)
  }

  ghost function BridgesBelow(t: Bus, i: nat): nat {
    if i == 0 then 0 else BridgesBelow(t, i - 1) + if SlotOf(t, i - 1).Bridge? then 1 else 0
  }

  /** The bus at p, if there is one. */
  function BusAt(root: Bus, p: Path): Option<Bus> {
    if p == [] then Some(root)
    else
      var above := BusAt(root, Init(p));
      if above.Some? && SlotOf(above.value, Last(p)).Bridge? then Some(SlotOf(above.value, Last(p)).child)
      else None
  }

  function SlotAt(root: Bus, p: Path): Slot {
    if p != [] && BusAt(root, Init(p)).Some? then SlotOf(BusAt(root, Init(p)).value, Last(p)) else Empty
  }

  predicate IsBus(root: Bus, p: Path) {
    BusAt(root, p).Some?
  }

  predicate IsFunction(root: Bus, p: Path) {
    !SlotAt(root, p).Empty?
  }

  ghost predicate IsVisible(root: Bus, p: Path) {
    p != [] && IsBus(root, Init(p)) && Visible(BusAt(root, Init(p)).value, Last(p))
  }

  /** The number a bus gets when the bridges of each bus are numbered depth first, highest
      devfn first: the number of the bus above, plus one, plus all buses behind the
      bridges with a higher devfn. */
  ghost function Number(root: Bus, p: Path): nat {
    if p == [] || !IsBus(root, Init(p)) then 0
    else Number(root, Init(p)) + 1 + CountFrom(BusAt(root, Init(p)).value, Last(p) + 1)
  }

  /** The number of the last bus in the subtree at p. */
  ghost function LastNumber(root: Bus, p: Path): nat
    requires IsBus(root, p)
  {
    Number(root, p) + Count(BusAt(root, p).value)
  }

  lemma PathStep(p: Path, x: byte)
    ensures p + [x] != [] && Init(p + [x]) == p && Last(p + [x]) == x
  {
  }

  lemma {:induction false} BusIsWellFormed(root: Bus, p: Path)
    requires WellFormed(root) && IsBus(root, p)
    ensures WellFormed(BusAt(root, p).value)
  {
    if p != [] {
      BusIsWellFormed(root, Init(p));
      assert SlotAt(root, p) in BusAt(root, Init(p)).value.slots;
    }
  }

  /** The bridge class tells bridges from devices, and every bridge is visible. */
  lemma BridgeByClass(root: Bus, p: Path)
    requires WellFormed(root) && IsFunction(root, p)
    ensures IsBus(root, p) <==> SlotAt(root, p).hdr.classCode == 0x0604
    ensures IsBus(root, p) ==> IsVisible(root, p)
  {
    BusIsWellFormed(root, Init(p));
    var t := BusAt(root, Init(p)).value;
    assert SlotAt(root, p) in t.slots;
    assert SlotOf(t, Last(p)).Bridge? ==> Visible(t, Last(p));
  }

  lemma SlotCount(t: Bus)
    requires WellFormed(t)
    ensures |t.slots| == SLOTS
  {
  }

  ghost predicate NoBridgeBetween(root: Bus, p: Path, i: nat, k: nat) {
    forall j: byte | i <= j < k :: !IsBus(root, p + [j])
  }

  lemma NoBridgeAt(root: Bus, p: Path, i: nat, k: nat)
    requires IsBus(root, p) && forall j | i <= j < k :: !SlotOf(BusAt(root, p).value, j).Bridge?
    ensures NoBridgeBetween(root, p, i, k)
  {
    forall j: byte | i <= j < k ensures !IsBus(root, p + [j]) {
      PathStep(p, j);
    }
  }

  lemma {:induction false} CountFromMonotone(t: Bus, i: nat, j: nat)
    requires i <= j <= |t.slots|
    ensures CountFrom(t, j) <= CountFrom(t, i)
    decreases j - i
  {
    if i < j { CountFromMonotone(t, i + 1, j); }
  }

  /** The numbers below bus p + [x] are a part of the numbers below p that lies strictly
      above p's own and strictly above those of every bridge with a higher devfn. */
  lemma ChildRange(root: Bus, p: Path, x: byte)
    requires IsBus(root, p) && IsBus(root, p + [x])
    ensures Number(root, p + [x]) == Number(root, p) + 1 + CountFrom(BusAt(root, p).value, x + 1)
    ensures LastNumber(root, p + [x]) == Number(root, p) + CountFrom(BusAt(root, p).value, x)
    ensures Number(root, p) < Number(root, p + [x]) <= LastNumber(root, p + [x]) <= LastNumber(root, p)
  {
    PathStep(p, x);
    CountFromMonotone(BusAt(root, p).value, 0, x);
  }

  /** A bridge with a higher devfn owns lower numbers. */
  lemma SiblingRange(root: Bus, p: Path, x: byte, y: byte)
    requires IsBus(root, p + [x]) && IsBus(root, p + [y]) && x < y
    ensures LastNumber(root, p + [y]) < Number(root, p + [x])
  {
    PathStep(p, x);
    PathStep(p, y);
    ChildRange(root, p, x);
    ChildRange(root, p, y);
    CountFromMonotone(BusAt(root, p).value, x + 1, y);
  }

  lemma {:induction false} RangeBound(root: Bus, p: Path)
    requires IsBus(root, p)
    ensures LastNumber(root, p) <= Count(root)
  {
    if p != [] {
      RangeBound(root, Init(p));
      assert p == Init(p) + [Last(p)];
      ChildRange(root, Init(p), Last(p));
    }
  }

  /** Every name of something below bus p passes a bridge of p. */
  lemma {:induction false} PrefixIsBus(root: Bus, q: Path, k: nat)
    requires k <= |q|
    requires IsBus(root, q) || (k < |q| && IsFunction(root, q))
    ensures IsBus(root, q[..k])
    decreases |q|
  {
    if k == |q| {
      assert q[..k] == q;
    } else {
      assert IsBus(root, Init(q));
      PrefixIsBus(root, Init(q), k);
      assert Init(q)[..k] == q[..k];
    }
  }

  /** Slots that a scan does not report hide no bridge. */
  lemma {:induction false} HiddenSlots(t: Bus, i: nat, k: nat)
    requires WellFormed(t) && i <= k <= SLOTS
    requires forall j | i <= j < k :: !Visible(t, j)
    ensures PreviousBridge(t, k) == PreviousBridge(t, i)
    ensures BridgesBelow(t, k) == BridgesBelow(t, i)
    decreases k - i
  {
    if i < k {
      HiddenSlots(t, i, k - 1);
      assert !Visible(t, k - 1);
    }
  }

  /** A nonzero count below i means that the list head at i is a real bridge, with one
      bridge less below it and none between it and i. */
  lemma {:induction false} HeadIsBridge(t: Bus, i: nat)
    requires |t.slots| == SLOTS && i <= SLOTS && BridgesBelow(t, i) > 0
    ensures var x := PreviousBridge(t, i);
            && x < i && t.slots[x].Bridge?
            && BridgesBelow(t, x) == BridgesBelow(t, i) - 1
            && CountFrom(t, x + 1) == CountFrom(t, i)
            && forall j | x < j < i :: !SlotOf(t, j).Bridge?
  {
    if !t.slots[i - 1].Bridge? {
      HeadIsBridge(t, i - 1);
      assert CountFrom(t, i - 1) == CountFrom(t, i);
    }
  }

  lemma {:induction false} CountFromSkip(t: Bus, i: nat, k: nat)
    requires i <= k <= |t.slots| && forall j | i <= j < k :: !SlotOf(t, j).Bridge?
    ensures CountFrom(t, i) == CountFrom(t, k)
    decreases k - i
  {
    if i < k {
      assert !SlotOf(t, i).Bridge?;
      CountFromSkip(t, i + 1, k);
    }
  }

  lemma {:induction false} NoBridgesBelow(t: Bus, i: nat)
    requires i <= |t.slots| && BridgesBelow(t, i) == 0
    ensures forall j | 0 <= j < i :: !SlotOf(t, j).Bridge?
    ensures CountFrom(t, i) == CountFrom(t, 0)
  {
    if i > 0 {
      NoBridgesBelow(t, i - 1);
      assert CountFrom(t, i - 1) == CountFrom(t, i);
    }
  }

  /** The next free number when everything from hi upwards is numbered is that of the bridge
      at x, and the number used last when that bridge is finished leaves x as the new hi. */
  lemma NumberStep(root: Bus, p: Path, x: byte, hi: nat)
    requires WellFormed(root) && IsBus(root, p) && IsBus(root, p + [x]) && x < hi <= SLOTS
    requires forall j | x < j < hi :: !SlotOf(BusAt(root, p).value, j).Bridge?
    ensures Number(root, p + [x]) == Number(root, p) + CountFrom(BusAt(root, p).value, hi) + 1
    ensures LastNumber(root, p + [x]) == Number(root, p) + CountFrom(BusAt(root, p).value, x)
    ensures LastNumber(root, p + [x]) <= Count(root)
  {
    ChildRange(root, p, x);
    RangeBound(root, p + [x]);
    BusIsWellFormed(root, p);
    SlotCount(BusAt(root, p).value);
    CountFromSkip(BusAt(root, p).value, x + 1, hi);
  }
}
