/**
 * Bus-number assignment: PciScanBus.
 *
 * The scan walks device 0..31, function 0..7 of one bus. Every PCI-PCI or
 * CardBus bridge it finds gets the next bus number as its secondary bus
 * (written together with the primary bus into the bridge's bus-number
 * registers); a PCI-PCI bridge's secondary bus is then scanned the same
 * way, and its subordinate-bus register ends up holding the highest bus
 * number handed out below it.
 *
 * The hardware is an oracle: a `Bus` says which functions answer, what
 * kind of device each is, whether function 0 is multi-function, what the
 * hot-plug controller reports as bus padding, and which bus sits behind a
 * bridge. The two UINT8 counters of the source (*SubBusNumber and
 * *PaddedBusRange) are kept modulo 256, and the scan reports whether the
 * sub-bus counter ever wrapped.
 */
module PciScan {
  import opened Bits
  import opened Efi
  import opened PciTree

  const PCI_MAX_DEVICE: nat := 31
  const PCI_MAX_FUNC: nat := 7
  /** Number of (device, function) slots on a bus. */
  const SLOTS: nat := 256

  /** Bus-number registers of a bridge header. */
  const PCI_BRIDGE_PRIMARY_BUS_REGISTER_OFFSET: nat := 0x18
  const PCI_BRIDGE_SUBORDINATE_BUS_REGISTER_OFFSET: nat := 0x1A

  /**
   * What the hot-plug initialization protocol says about bus padding for a
   * bridge: nothing (not a root hot-plug bus), an error, or a bus range with
   * the padding attribute and the controller state.
   */
  datatype Padding =
    | NoPadding
    | PaddingError(status: Status)
    | BusPadding(busRange: nat, rootBridge: bool, enabled: bool, initialized: bool)

  /** A function that answers: its header kind and, for a bridge, the bus behind it. */
  datatype Function = Function(kind: DeviceKind, multiFunction: bool, padding: Padding, below: Bus)

  datatype Slot = Absent | Present(f: Function)

  /** The functions of a bus, slot `dev * 8 + func`; slots past the end are absent. */
  datatype Bus = Bus(slots: seq<Slot>)

  /** The configuration accesses of the scan. */
  datatype BusAction =
    | Probe(bus: nat, dev: nat, func: nat)
    | BusWrite(bus: nat, dev: nat, func: nat, reg: nat, bytes: nat, value: nat)

  /** *SubBusNumber, *PaddedBusRange, the accesses so far, and whether the sub-bus counter wrapped. */
  datatype ScanState = ScanState(sub: nat, padded: nat, log: seq<BusAction>, wrapped: bool)

  predicate Uint8State(st: ScanState)
  {
    st.sub < 0x100 && st.padded < 0x100
  }

  function SlotAt(bus: Bus, i: nat): Slot
  {
    if i < |bus.slots| then bus.slots[i] else Absent
  }

  predicate IsBridge(s: Slot)
  {
    s.Present? && (s.f.kind == PciBridge || s.f.kind == CardBus)
  }

  // ---------------------------------------------------------------------
  // Function iteration

  /**
   * The slot the loop visits after slot i: an absent function 0, or a
   * function 0 that is not multi-function, sends it to the next device.
   */
  function NextIndex(bus: Bus, i: nat): (j: nat)
    ensures j > i
  {
    var s := SlotAt(bus, i);
    if i % 8 == 0 && (s.Absent? || !s.f.multiFunction) then i - i % 8 + 8 else i + 1
  }

  /** The slots visited from slot i on. */
  function VisitedFrom(bus: Bus, i: nat): set<nat>
    decreases SLOTS - i
  {
    if i >= SLOTS then {} else {i} + VisitedFrom(bus, NextIndex(bus, i))
  }

  /** Function 0 of device d is present and multi-function. */
  predicate MultiFunction(bus: Bus, d: nat)
  {
    SlotAt(bus, 8 * d).Present? && SlotAt(bus, 8 * d).f.multiFunction
  }

  /**
   * The scan probes function 0 of every device, and functions 1..7 of a
   * device exactly when its function 0 is present and multi-function.
   */
  lemma VisitedSlots(bus: Bus, d: nat, f: nat)
    requires d <= PCI_MAX_DEVICE && f <= PCI_MAX_FUNC
    ensures 8 * d + f in VisitedFrom(bus, 0) <==> f == 0 || MultiFunction(bus, d)
  {
    VisitedFromBlock(bus, 0, d, f);
  }

  /** From the start of device e's block, the visited slots of a later device d. */
  lemma {:induction false} VisitedFromBlock(bus: Bus, e: nat, d: nat, f: nat)
    requires e <= d <= PCI_MAX_DEVICE && f <= PCI_MAX_FUNC
    ensures 8 * d + f in VisitedFrom(bus, 8 * e) <==> f == 0 || MultiFunction(bus, d)
    decreases d - e
  {
    var i, x := 8 * e, 8 * d + f;
    DivModUnique(i, 8, e, 0);
    if MultiFunction(bus, e) {
      assert NextIndex(bus, i) == i + 1;
      DivModUnique(i + 1, 8, e, 1);
      InsideBlock(bus, i + 1, x);
      assert (i + 1) - (i + 1) % 8 + 8 == i + 8;
    } else {
      assert NextIndex(bus, i) == i + 8;
    }
    if e < d {
      VisitedFromBlock(bus, e + 1, d, f);
    } else if f != 0 {
      VisitedAbove(bus, i + 8, x);
    }
  }

  /** Inside a device's block the loop steps one function at a time. */
  lemma {:induction false} InsideBlock(bus: Bus, j: nat, x: nat)
    requires j % 8 != 0 && j < SLOTS
    ensures x in VisitedFrom(bus, j) <==> j <= x < j - j % 8 + 8 || x in VisitedFrom(bus, j - j % 8 + 8)
    decreases 8 - j % 8
  {
    assert NextIndex(bus, j) == j + 1;
    if j % 8 + 1 < 8 {
      DivModUnique(j + 1, 8, j / 8, j % 8 + 1);
      InsideBlock(bus, j + 1, x);
    } else {
      DivModUnique(j + 1, 8, j / 8 + 1, 0);
    }
  }

  /** The loop never goes back: nothing below i is visited from i. */
  lemma {:induction false} VisitedAbove(bus: Bus, i: nat, x: nat)
    requires x < i
    ensures x !in VisitedFrom(bus, i)
    decreases SLOTS - i
  {
    if i < SLOTS {
      VisitedAbove(bus, NextIndex(bus, i), x);
    }
  }

  // ---------------------------------------------------------------------
  // One bridge

  /** (UINT8) (x + 1) and whether it wrapped. */
  function Inc8(x: nat): nat
  {
    (x + 1) % 0x100
  }

  /**
   * The word written to the primary-bus register: the secondary bus in the
   * high byte, the primary bus in the low byte.
   */
  function BusNumbers(second: nat, start: nat): nat
  {
    Or(second * 0x100, start) % 0x1_0000
  }

  /** The register word splits back into the two bus numbers. */
  lemma BusNumbersRoundTrip(second: nat, start: nat)
    requires second < 0x100 && start < 0x100
    ensures BusNumbers(second, start) / 0x100 == second
    ensures BusNumbers(second, start) % 0x100 == start
  {
    var hi := second * 0x100;
    assert Pow2(8) == 0x100 by { Pow2Values(); }
    assert hi % 0x100 == 0;
    AndLowHigh(start, hi, 8);
    OrDisjoint(start, hi);
    OrComm(hi, start);
    assert hi + start < 0x1_0000;
    DivModUnique(hi + start, 0x100, second, start);
  }

  lemma OrComm(a: nat, b: nat)
    ensures Or(a, b) == Or(b, a)
  {
    if a != 0 && b != 0 {
      OrComm(a / 2, b / 2);
    }
  }

  /**
   * The bus number a bridge gets: a zero *SubBusNumber first takes the
   * padded range (which is then cleared), then it is incremented.
   */
  function AssignBus(st: ScanState): (r: ScanState)
    requires Uint8State(st)
    ensures Uint8State(r)
    ensures st.sub != 0 ==> r.sub == Inc8(st.sub) && r.padded == st.padded
    ensures st.sub == 0 ==> r.sub == Inc8(st.padded) && r.padded == 0
    ensures !r.wrapped ==> !st.wrapped && r.sub > st.sub
  {
    var base := if st.sub == 0 then st.padded else st.sub;
    var padded := if st.sub == 0 then 0 else st.padded;
    ScanState(Inc8(base), padded, st.log, st.wrapped || base + 1 >= 0x100)
  }

  /**
   * After the bridge: hot-plug bus padding goes to *PaddedBusRange when the
   * controller is a root-bridge padding that is enabled and initialized, and
   * to *SubBusNumber otherwise; then the subordinate register gets the
   * counter.
   */
  function AddPadding(st: ScanState, p: Padding, hotplug: bool): (r: ScanState)
    requires Uint8State(st)
    ensures Uint8State(r) && r.log == st.log
    ensures !hotplug || !p.BusPadding? ==> r == st
    ensures hotplug && p.BusPadding? && p.rootBridge && p.enabled && p.initialized ==>
              r.sub == st.sub && r.padded == (p.busRange % 0x100 + st.padded) % 0x100
    ensures hotplug && p.BusPadding? && !(p.rootBridge && p.enabled && p.initialized) ==>
              r.padded == st.padded && r.sub == (p.busRange % 0x100 + st.sub) % 0x100
    ensures !r.wrapped ==> !st.wrapped && r.sub >= st.sub
  {
    if hotplug && p.BusPadding? then
      var range := p.busRange % 0x100;
      if p.rootBridge && p.enabled && p.initialized then
        st.(padded := (range + st.padded) % 0x100)
      else
        st.(sub := (range + st.sub) % 0x100, wrapped := st.wrapped || range + st.sub >= 0x100)
    else st
  }

  // ---------------------------------------------------------------------
  // The scan

  /**
   * PciScanBus(bus, start): scan bus number `start`. The result is the
   * status and the state after the scan.
   */
  function ScanBus(bus: Bus, start: nat, st: ScanState, hotplug: bool): (r: (Status, ScanState))
    requires Uint8State(st)
    ensures Uint8State(r.1)
    ensures st.log <= r.1.log
    ensures !r.1.wrapped ==> !st.wrapped && r.1.sub >= st.sub
    decreases bus, 1
  {
    ScanSlots(bus, start, 0, st, hotplug)
  }

  function ScanSlots(bus: Bus, start: nat, i: nat, st: ScanState, hotplug: bool): (r: (Status, ScanState))
    requires Uint8State(st)
    ensures Uint8State(r.1)
    ensures st.log <= r.1.log
    ensures !r.1.wrapped ==> !st.wrapped && r.1.sub >= st.sub
    decreases bus, 0, SLOTS - i
  {
    if i >= SLOTS then (Success, st)
    else
      var dev, func := i / 8, i % 8;
      var probed := st.(log := st.log + [Probe(start, dev, func)]);
      if i < |bus.slots| && IsBridge(bus.slots[i]) then
        var f := bus.slots[i].f;
        var (s, after) := ScanBridge(f, start, dev, func, probed, hotplug);
        if s.IsError() then (s, after)
        else ScanSlots(bus, start, NextIndex(bus, i), after, hotplug)
      else
        ScanSlots(bus, start, NextIndex(bus, i), probed, hotplug)
  }

  /**
   * One bridge found at (start, dev, func): assign its secondary bus, write
   * the bus-number registers, scan behind a PCI-PCI bridge, add hot-plug
   * padding and write the subordinate bus.
   */
  function ScanBridge(f: Function, start: nat, dev: nat, func: nat, st: ScanState, hotplug: bool): (r: (Status, ScanState))
    requires Uint8State(st)
    ensures Uint8State(r.1)
    ensures st.log <= r.1.log
    ensures !r.1.wrapped ==> !st.wrapped && r.1.sub >= st.sub
    decreases f, 0
  {
    if hotplug && f.padding.PaddingError? then (f.padding.status, st)
    else
      var numbered := AssignBus(st);
      var second := numbered.sub;
      var numbers := BusWrite(start, dev, func, PCI_BRIDGE_PRIMARY_BUS_REGISTER_OFFSET, 2, BusNumbers(second, start));
      var written := numbered.(log := numbered.log + [numbers]);
      var (s, scanned) :=
        if f.kind == PciBridge then
          var bridged := written.(log := written.log + [BusWrite(start, dev, func, PCI_BRIDGE_SUBORDINATE_BUS_REGISTER_OFFSET, 1, 0xFF)]);
          ScanBus(f.below, second, bridged, hotplug)
        else (Success, written);
      if s.IsError() then (s, scanned)
      else
        var padded := AddPadding(scanned, f.padding, hotplug);
        (Success, padded.(log := padded.log + [BusWrite(start, dev, func, PCI_BRIDGE_SUBORDINATE_BUS_REGISTER_OFFSET, 1, padded.sub)]))
  }

  /**
   * What a bridge's registers end up holding: the primary-bus word names
   * the secondary bus (the incremented counter) and the bus it sits on, and
   * the last write is the subordinate register, set to the final counter.
   * A CardBus bridge gets its bus numbers but nothing behind it is scanned.
   */
  lemma BridgeRegisters(f: Function, start: nat, dev: nat, func: nat, st: ScanState, hotplug: bool)
    requires Uint8State(st) && start < 0x100
    requires !(hotplug && f.padding.PaddingError?)
    ensures var r := ScanBridge(f, start, dev, func, st, hotplug);
      var second := AssignBus(st).sub;
      var w := r.1.log[|st.log|];
      && |r.1.log| > |st.log|
      && w.BusWrite? && w.reg == PCI_BRIDGE_PRIMARY_BUS_REGISTER_OFFSET && w.bytes == 2
      && w.value / 0x100 == second && w.value % 0x100 == start
      && (f.kind == PciBridge ==>
            |r.1.log| > |st.log| + 1 && r.1.log[|st.log| + 1].BusWrite?
            && r.1.log[|st.log| + 1].reg == PCI_BRIDGE_SUBORDINATE_BUS_REGISTER_OFFSET
            && r.1.log[|st.log| + 1].value == 0xFF)
      && (r.0 == Success ==>
            r.1.log[|r.1.log| - 1] == BusWrite(start, dev, func, PCI_BRIDGE_SUBORDINATE_BUS_REGISTER_OFFSET, 1, r.1.sub))
      && (f.kind == CardBus ==> |r.1.log| == |st.log| + 2 && r.0 == Success)
  {
    var numbered := AssignBus(st);
    BusNumbersRoundTrip(numbered.sub, start);
    var r := ScanBridge(f, start, dev, func, st, hotplug);
    var numbers := BusWrite(start, dev, func, PCI_BRIDGE_PRIMARY_BUS_REGISTER_OFFSET, 2, BusNumbers(numbered.sub, start));
    var written := numbered.(log := st.log + [numbers]);
    if f.kind == PciBridge {
      var bridged := written.(log := written.log + [BusWrite(start, dev, func, PCI_BRIDGE_SUBORDINATE_BUS_REGISTER_OFFSET, 1, 0xFF)]);
      var sub := ScanBus(f.below, numbered.sub, bridged, hotplug);
      assert bridged.log <= sub.1.log;
      assert r.1.log[|st.log|] == bridged.log[|st.log|];
      assert r.1.log[|st.log| + 1] == bridged.log[|st.log| + 1];
    }
  }
}
