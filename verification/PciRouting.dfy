/** Which bus answers a configuration access. Bridges are mutable: an access for bus number b
    travels down from the host bridge through every bridge whose registers claim b
    (section 3.1.2 of the PCI-to-PCI Bridge Architecture Specification 1.2). */
module PciRouting {
  import opened Bytes
  import opened PciTopology

  /** The writable registers that enumeration uses; others holds those, by offset, that it writes
      and never reads. */
  datatype Registers = Registers(primary: byte, secondary: byte, subordinate: byte, line: byte,
                                 control: uint16, others: map<nat, nat>)

  /** The registers of every function, by path. */
  type ConfigSpace = map<Path, Registers>

  const NO_REGISTERS := Registers(0, 0, 0, 0, 0, map[])

  ghost function At(regs: ConfigSpace, p: Path): Registers {
    if p in regs then regs[p] else NO_REGISTERS
  }

  predicate Claims(r: Registers, b: nat) {
    r.secondary <= b <= r.subordinate
  }

  /** A Type 1 access for bus number b appears on bus p: the host bridge emits one unless b is
      its own bus, and a bridge that claims b passes it on unless b is right behind it. */
  predicate Forwarded(regs: ConfigSpace, p: Path, b: nat) {
    if p == [] then b != 0
    else
      && Forwarded(regs, Init(p), b)
      && p in regs && Claims(regs[p], b) && regs[p].secondary != b
  }

  /** A Type 0 access for bus number b is delivered on bus p. */
  predicate Lands(regs: ConfigSpace, p: Path, b: nat) {
    if p == [] then b == 0
    else
      && Forwarded(regs, Init(p), b)
      && p in regs && Claims(regs[p], b) && regs[p].secondary == b
  }

  /** All buses on which an access for bus number b is delivered. */
  ghost function Landing(root: Bus, regs: ConfigSpace, b: nat): iset<Path>
  {
    iset p | IsBus(root, p) && Lands(regs, p, b)
  }

  /** All functions that answer to bus number b and position x. */
  function Targets(regs: ConfigSpace, b: nat, x: byte): set<Path> {
    set p | p in regs && p != [] && Last(p) == x && Lands(regs, Init(p), b)
  }

  /** The configuration space holds exactly the functions of the hierarchy. */
  ghost predicate Populated(root: Bus, regs: ConfigSpace)
  {
    forall p :: p in regs <==> IsFunction(root, p)
  }

  /** The state of the registers while bus p is being worked on: the bridges down to p are open
      up to bus 255 and carry their final secondary number, and no bridge beside them
      reaches the number of the open one. */
  ghost predicate Open(root: Bus, regs: ConfigSpace, p: Path)
    requires IsBus(root, p)
  {
    p == [] || (
      && Open(root, regs, Init(p))
      && At(regs, p).secondary == Number(root, p)
      && At(regs, p).subordinate == 255
      && forall y: byte :: IsBus(root, Init(p) + [y]) && y != Last(p) ==>
           At(regs, Init(p) + [y]).subordinate < Number(root, p))
  }

  lemma BusIsFunction(root: Bus, p: Path)
    requires IsBus(root, p) && p != []
    ensures IsFunction(root, p)
  {
  }

  ghost predicate Reached(regs: ConfigSpace, p: Path, b: nat) {
    p == [] || (Forwarded(regs, Init(p), b) && p in regs && Claims(regs[p], b))
  }

  /** On an open path, an access for any number from the path's own upwards goes along the path
      and nowhere else. */
  lemma {:induction false} OpenPathOnly(root: Bus, regs: ConfigSpace, p: Path, b: nat)
    requires Populated(root, regs) && IsBus(root, p) && Open(root, regs, p)
    requires Number(root, p) <= b <= 255
    ensures Reached(regs, p, b)
    ensures b > Number(root, p) ==> Forwarded(regs, p, b)
    ensures forall q | |q| == |p| && IsBus(root, q) && Reached(regs, q, b) :: q == p
  {
    if p != [] {
      var above := Init(p);
      assert p == above + [Last(p)];
      ChildRange(root, above, Last(p));
      BusIsFunction(root, p);
      OpenPathOnly(root, regs, above, b);
      forall q | |q| == |p| && IsBus(root, q) && Reached(regs, q, b) ensures q == p {
        BusIsFunction(root, q);
        assert q == Init(q) + [Last(q)];
        assert Reached(regs, Init(q), b);
        assert Init(q) == above;
      }
    }
  }

  lemma {:induction false} ReachedPrefix(regs: ConfigSpace, q: Path, k: nat, b: nat)
    requires k <= |q| && Reached(regs, q, b)
    ensures Reached(regs, q[..k], b)
    ensures k < |q| ==> Forwarded(regs, q[..k], b)
    decreases |q|
  {
    if k == |q| {
      assert q[..k] == q;
    } else if k + 1 == |q| {
      assert q[..k] == Init(q);
    } else {
      assert Reached(regs, Init(q), b);
      ReachedPrefix(regs, Init(q), k, b);
      assert Init(q)[..k] == q[..k];
    }
  }

  lemma {:induction false} OpenPrefix(root: Bus, regs: ConfigSpace, p: Path, k: nat)
    requires IsBus(root, p) && Open(root, regs, p) && k <= |p|
    ensures IsBus(root, p[..k]) && Open(root, regs, p[..k])
    ensures Number(root, p[..k]) <= Number(root, p)
    ensures k < |p| ==> Number(root, p[..k]) < Number(root, p)
    decreases |p|
  {
    if k == |p| {
      assert p[..k] == p;
    } else {
      OpenPrefix(root, regs, Init(p), k);
      assert p == Init(p) + [Last(p)];
      ChildRange(root, Init(p), Last(p));
      assert Init(p)[..k] == p[..k];
    }
  }

  /** While the path to bus p is open, an access for p's number is delivered on p and on no
      other bus. */
  lemma LandsThere(root: Bus, regs: ConfigSpace, p: Path)
    requires Populated(root, regs) && Count(root) <= 255
    requires IsBus(root, p) && Open(root, regs, p)
    ensures Lands(regs, p, Number(root, p))
    ensures Landing(root, regs, Number(root, p)) == iset{p}
  {
    RangeBound(root, p);
    OpenPathOnly(root, regs, p, Number(root, p));
    forall q | IsBus(root, q) && Lands(regs, q, Number(root, p)) ensures q == p {
      LandsOnlyOn(root, regs, p, q);
    }
  }

  /** ... and it is answered by exactly the addressed function of p, if there is one. */
  lemma RoutedTo(root: Bus, regs: ConfigSpace, p: Path, x: byte)
    requires Populated(root, regs) && Count(root) <= 255
    requires IsBus(root, p) && Open(root, regs, p)
    ensures Targets(regs, Number(root, p), x) == if IsFunction(root, p + [x]) then {p + [x]} else {}
  {
    PathStep(p, x);
    LandsThere(root, regs, p);
    RangeBound(root, p);
    forall q | q in Targets(regs, Number(root, p), x) ensures q == p + [x] && IsFunction(root, q) {
      assert IsFunction(root, q);
      LandsOnlyOn(root, regs, p, Init(q));
      assert q == Init(q) + [Last(q)];
    }
  }

  lemma LandsOnlyOn(root: Bus, regs: ConfigSpace, p: Path, q: Path)
    requires Populated(root, regs)
    requires IsBus(root, p) && Open(root, regs, p) && Number(root, p) <= 255
    requires IsBus(root, q) && Lands(regs, q, Number(root, p))
    ensures q == p
  {
    var b := Number(root, p);
    assert Reached(regs, q, b);
    if |q| >= |p| {
      ReachedPrefix(regs, q, |p|, b);
      PrefixIsBus(root, q, |p|);
      OpenPathOnly(root, regs, p, b);
      assert q[..|p|] == p;
    } else {
      OpenPrefix(root, regs, p, |q|);
      OpenPathOnly(root, regs, p[..|q|], b);
    }
  }

  /** Work strictly below bus p does not disturb the path to p. */
  lemma {:induction false} OpenFrame(root: Bus, regs: ConfigSpace, regs': ConfigSpace, p: Path)
    requires IsBus(root, p) && Open(root, regs, p)
    requires forall q: Path | |q| <= |p| :: At(regs', q) == At(regs, q)
    ensures Open(root, regs', p)
  {
    if p != [] {
      OpenFrame(root, regs, regs', Init(p));
    }
  }

  /** Opening a bridge of bus p whose siblings stay below its number extends the open path. */
  lemma OpenChild(root: Bus, regs: ConfigSpace, p: Path, x: byte)
    requires IsBus(root, p) && Open(root, regs, p) && IsBus(root, p + [x])
    requires At(regs, p + [x]).secondary == Number(root, p + [x])
    requires At(regs, p + [x]).subordinate == 255
    requires forall y: byte | IsBus(root, p + [y]) && y != x ::
               At(regs, p + [y]).subordinate < Number(root, p + [x])
    ensures Open(root, regs, p + [x])
  {
    PathStep(p, x);
  }

  // ---------- the hierarchy once every bridge is configured ----------

  /** The bridge at p says: my bus is numbered in preorder, and I own the numbers of my subtree. */
  ghost predicate Configured(root: Bus, r: Registers, p: Path)
    requires IsBus(root, p) && p != []
  {
    && r.primary == Number(root, Init(p))
    && r.secondary == Number(root, p)
    && r.subordinate == LastNumber(root, p)
  }

  ghost predicate AllConfigured(root: Bus, regs: ConfigSpace)
  {
    forall p {:trigger p in regs} | p != [] && IsBus(root, p) :: p in regs && Configured(root, regs[p], p)
  }

  lemma {:induction false} ReachesSubtree(root: Bus, regs: ConfigSpace, p: Path, b: nat)
    requires AllConfigured(root, regs) && IsBus(root, p) && p != []
    requires b > 0
    ensures Reached(regs, p, b) <==> Number(root, p) <= b <= LastNumber(root, p)
  {
    var above := Init(p);
    assert p == above + [Last(p)];
    ChildRange(root, above, Last(p));
    assert p in regs;
    if above != [] {
      assert above in regs;
      ReachesSubtree(root, regs, above, b);
      assert Forwarded(regs, above, b) <==> Reached(regs, above, b) && b != Number(root, above);
    }
  }

  /** After enumeration every bus answers to its preorder number and to no other, so each
      function has exactly one bus/device/function address. */
  lemma {:induction false} FinalRouting(root: Bus, regs: ConfigSpace, p: Path, b: nat)
    requires AllConfigured(root, regs) && IsBus(root, p)
    ensures Lands(regs, p, b) <==> b == Number(root, p)
  {
    if p != [] {
      assert p == Init(p) + [Last(p)];
      ChildRange(root, Init(p), Last(p));
      if b == 0 {
        assert !Lands(regs, p, b);
      } else {
        ReachesSubtree(root, regs, p, b);
      }
    }
  }
}
