/**
 * The PCI bus driver's option-ROM image table: a growable array of
 * mappings from a PCI function (segment, bus, device, function) to either a
 * loaded driver image or a ROM image in memory, with the two lookups that
 * read it when a device is enumerated.
 *
 * The table keeps three numbers apart: the entries in use, the capacity the
 * code believes it has (mMaxNumberOfPciRomImages) and the slots of the
 * buffer actually allocated. AllocatePool's success is a parameter. A NULL
 * image handle is 0. AddDriver, which is not part of this model, is taken
 * to record the handle in the device's driver list.
 */
module RomTable {
  import opened Efi

  /** The number of entries the table grows by. */
  const GROWTH: nat := 0x20

  datatype PciAddress = PciAddress(seg: nat, bus: nat, dev: nat, func: nat)

  /** EFI_PCI_ROM_IMAGE_MAPPING */
  datatype Mapping = Mapping(imageHandle: nat, addr: PciAddress, romAddress: nat, romLength: nat)

  /** EFI_PCI_OPTION_ROM_DESCRIPTOR, less its memory type. */
  datatype Descriptor = Descriptor(romAddress: nat, romLength: nat, addr: PciAddress)

  /** mRomImageTable with its count, its believed capacity and its allocated slots. */
  datatype Table = Table(entries: seq<Mapping>, capacity: nat, slots: nat)
  {
    /** Every entry lies in the allocated buffer, whose size is the capacity. */
    predicate Valid()
    {
      |entries| <= slots && capacity == slots && capacity % GROWTH == 0
    }
  }

  /** The table before the first mapping: no buffer. */
  const EMPTY: Table := Table([], 0, 0)

  /** What a lookup sets on the device: its drivers, RomImage and RomSize. */
  datatype RomInfo = RomInfo(drivers: seq<nat>, romImage: nat, romSize: nat)

  // ---------------------------------------------------------------------
  // PciRomAddImageMapping

  /**
   * PciRomAddImageMapping as written: when the table is full the capacity
   * grows before the allocation is tried, and stays grown when it fails;
   * the mapping is then written at the count whether or not the buffer has
   * that slot.
   */
  function AddImageMappingAsWritten(t: Table, m: Mapping, allocates: bool): (r: Table)
    ensures |t.entries| >= t.capacity && !allocates ==> r.entries == t.entries && r.slots == t.slots
    ensures !(|t.entries| >= t.capacity && !allocates) ==> r.entries == t.entries + [m]
    ensures r.capacity >= t.capacity
    ensures |t.entries| <= t.capacity ==> |r.entries| <= r.capacity
  {
    if |t.entries| >= t.capacity then
      if !allocates then t.(capacity := t.capacity + GROWTH)
      else Table(t.entries + [m], t.capacity + GROWTH, t.capacity + GROWTH)
    else t.(entries := t.entries + [m])
  }

  /**
   * One failed allocation desynchronises the capacity from the buffer: the
   * next mapping added to the empty table is written through the NULL
   * table, at slot 0 of a buffer with no slots.
   */
  lemma AddAfterFailedGrowthOverflows(m1: Mapping, m2: Mapping, allocates: bool)
    ensures var t1 := AddImageMappingAsWritten(EMPTY, m1, false);
      && t1.capacity == GROWTH && t1.slots == 0 && t1.entries == []
      && var t2 := AddImageMappingAsWritten(t1, m2, allocates);
         |t2.entries| == 1 && t2.slots == 0 && !t2.Valid()
  {
  }

  /**
   * PciRomAddImageMapping with the capacity grown only once the buffer is
   * allocated: a failed allocation drops the mapping and leaves the table
   * as it was; otherwise the mapping is appended and nothing else changes.
   */
  function AddImageMapping(t: Table, m: Mapping, allocates: bool): (r: Table)
    requires t.Valid()
    ensures r.Valid()
    ensures |t.entries| < t.capacity || allocates ==> r.entries == t.entries + [m]
    ensures |t.entries| >= t.capacity && !allocates ==> r == t
    ensures |t.entries| < t.capacity ==> r.capacity == t.capacity
    ensures |t.entries| >= t.capacity && allocates ==> r.capacity == t.capacity + GROWTH
  {
    if |t.entries| >= t.capacity then
      if !allocates then t
      else Table(t.entries + [m], t.capacity + GROWTH, t.capacity + GROWTH)
    else t.(entries := t.entries + [m])
  }

  /** When every allocation succeeds, the table holds the added mappings after the old ones, in order. */
  lemma {:induction false} AddAllKeepsOrder(t: Table, ms: seq<Mapping>, allocations: seq<bool>)
    requires t.Valid() && |allocations| == |ms|
    requires forall i :: 0 <= i < |allocations| ==> allocations[i]
    ensures AddAll(t, ms, allocations).entries == t.entries + ms
    decreases |ms|
  {
    if |ms| > 0 {
      var t1 := AddImageMapping(t, ms[0], allocations[0]);
      AddAllKeepsOrder(t1, ms[1..], allocations[1..]);
      assert t.entries + [ms[0]] + ms[1..] == t.entries + ms;
    }
  }

  /** Adding the mappings `ms` one by one, the i-th allocation succeeding when `allocations[i]`. */
  function AddAll(t: Table, ms: seq<Mapping>, allocations: seq<bool>): (r: Table)
    requires t.Valid() && |allocations| == |ms|
    ensures r.Valid()
    ensures |r.entries| <= |t.entries| + |ms|
    decreases |ms|
  {
    if |ms| == 0 then t
    else AddAll(AddImageMapping(t, ms[0], allocations[0]), ms[1..], allocations[1..])
  }

  // ---------------------------------------------------------------------
  // The lookups, defined on the entries

  /** The handles of the mappings for `a` that name a driver image, in table order. */
  function DriverHandles(entries: seq<Mapping>, a: PciAddress): (r: seq<nat>)
    ensures |r| <= |entries|
    ensures forall i :: 0 <= i < |r| ==> r[i] != 0
  {
    if |entries| == 0 then []
    else
      var last := entries[|entries| - 1];
      DriverHandles(entries[..|entries| - 1], a) + (if last.addr == a && last.imageHandle != 0 then [last.imageHandle] else [])
  }

  /** The handles of every mapping for `a`, NULL ones included, in table order. */
  function AllHandles(entries: seq<Mapping>, a: PciAddress): (r: seq<nat>)
    ensures |r| <= |entries|
  {
    if |entries| == 0 then []
    else
      var last := entries[|entries| - 1];
      AllHandles(entries[..|entries| - 1], a) + (if last.addr == a then [last.imageHandle] else [])
  }

  /** A mapping for `a` with no image handle: it describes a ROM image. */
  predicate RomMapping(m: Mapping, a: PciAddress)
  {
    m.addr == a && m.imageHandle == 0
  }

  /** The ROM image and size of the last mapping for `a` without a handle, or `dflt` when there is none. */
  function LastRom(entries: seq<Mapping>, a: PciAddress, dflt: (nat, nat)): (r: (nat, nat))
  {
    if |entries| == 0 then dflt
    else
      var last := entries[|entries| - 1];
      if RomMapping(last, a) then (last.romAddress, last.romLength)
      else LastRom(entries[..|entries| - 1], a, dflt)
  }

  /** The ROM image and size of the last descriptor for `a`, or `dflt` when there is none. */
  function LastDescriptor(ds: seq<Descriptor>, a: PciAddress, dflt: (nat, nat)): (r: (nat, nat))
  {
    if |ds| == 0 then dflt
    else
      var last := ds[|ds| - 1];
      if last.addr == a then (last.romAddress, last.romLength)
      else LastDescriptor(ds[..|ds| - 1], a, dflt)
  }

  /**
   * The last ROM mapping wins: LastRom is the mapping at the largest index
   * describing a ROM for `a`, and the default exactly when there is none.
   */
  lemma {:induction false} LastRomIsLast(entries: seq<Mapping>, a: PciAddress, dflt: (nat, nat))
    ensures (forall i :: 0 <= i < |entries| ==> !RomMapping(entries[i], a)) ==> LastRom(entries, a, dflt) == dflt
    ensures forall k :: (0 <= k < |entries| && RomMapping(entries[k], a) &&
        (forall i :: k < i < |entries| ==> !RomMapping(entries[i], a))) ==>
      LastRom(entries, a, dflt) == (entries[k].romAddress, entries[k].romLength)
  {
    if |entries| > 0 {
      var init := entries[..|entries| - 1];
      LastRomIsLast(init, a, dflt);
      forall k | 0 <= k < |init| && RomMapping(init[k], a)
        ensures RomMapping(entries[k], a)
      {
      }
      forall i | 0 <= i < |init| ensures init[i] == entries[i] {
      }
    }
  }

  /** A ROM mapping added for `a` is what the next lookup for `a` reports, whatever came before. */
  lemma AddedRomFound(t: Table, m: Mapping, a: PciAddress, dflt: (nat, nat))
    requires t.Valid() && RomMapping(m, a)
    requires |t.entries| < t.capacity
    ensures LastRom(AddImageMapping(t, m, false).entries, a, dflt) == (m.romAddress, m.romLength)
  {
    var e := AddImageMapping(t, m, false).entries;
    assert e[|e| - 1] == m;
  }

  /** A mapping added for another function leaves the lookup for `a` as it was. */
  lemma AddOtherUnchanged(t: Table, m: Mapping, a: PciAddress, dflt: (nat, nat), allocates: bool)
    requires t.Valid() && m.addr != a
    ensures var e := AddImageMapping(t, m, allocates).entries;
      && LastRom(e, a, dflt) == LastRom(t.entries, a, dflt)
      && DriverHandles(e, a) == DriverHandles(t.entries, a)
      && AllHandles(e, a) == AllHandles(t.entries, a)
  {
    var e := AddImageMapping(t, m, allocates).entries;
    if e != t.entries {
      assert e[..|e| - 1] == t.entries;
    }
  }

  // ---------------------------------------------------------------------
  // PciRomGetImageMapping and PciRomGetRomResourceFromPciOptionRomTable

  /**
   * PciRomGetImageMapping: each mapping for the device adds its driver
   * image, or, without one, sets RomImage and RomSize; so the last such
   * mapping's ROM stays.
   */
  method GetImageMapping(entries: seq<Mapping>, a: PciAddress, dev: RomInfo) returns (status: Status, r: RomInfo)
    ensures status == Success
    ensures r.drivers == dev.drivers + DriverHandles(entries, a)
    ensures (r.romImage, r.romSize) == LastRom(entries, a, (dev.romImage, dev.romSize))
  {
    r := dev;
    var i := 0;
    while i < |entries|
      invariant 0 <= i <= |entries|
      invariant r.drivers == dev.drivers + DriverHandles(entries[..i], a)
      invariant (r.romImage, r.romSize) == LastRom(entries[..i], a, (dev.romImage, dev.romSize))
    {
      assert entries[..i + 1][..i] == entries[..i];
      if entries[i].addr == a {
        if entries[i].imageHandle != 0 {
          r := r.(drivers := r.drivers + [entries[i].imageHandle]);
        } else {
          r := r.(romImage := entries[i].romAddress, romSize := entries[i].romLength);
        }
      }
      i := i + 1;
    }
    assert entries[..i] == entries;
    status := Success;
  }

  /**
   * PciRomGetRomResourceFromPciOptionRomTable: without the option-ROM
   * configuration table (None), NOT_FOUND and nothing set; otherwise the
   * last descriptor for the device sets RomImage and RomSize, and every
   * mapping for it, with or without a handle, adds its handle as a driver.
   */
  method GetRomResourceFromOptionRomTable(optionRoms: Option<seq<Descriptor>>, entries: seq<Mapping>, a: PciAddress, dev: RomInfo)
    returns (status: Status, r: RomInfo)
    ensures optionRoms.None? ==> status == NotFound && r == dev
    ensures optionRoms.Some? ==>
      && status == Success
      && (r.romImage, r.romSize) == LastDescriptor(optionRoms.value, a, (dev.romImage, dev.romSize))
      && r.drivers == dev.drivers + AllHandles(entries, a)
  {
    if optionRoms.None? {
      return NotFound, dev;
    }
    var ds := optionRoms.value;
    r := dev;
    var i := 0;
    while i < |ds|
      invariant 0 <= i <= |ds|
      invariant r.drivers == dev.drivers
      invariant (r.romImage, r.romSize) == LastDescriptor(ds[..i], a, (dev.romImage, dev.romSize))
    {
      assert ds[..i + 1][..i] == ds[..i];
      if ds[i].addr == a {
        r := r.(romImage := ds[i].romAddress, romSize := ds[i].romLength);
      }
      i := i + 1;
    }
    assert ds[..i] == ds;
    var j := 0;
    while j < |entries|
      invariant 0 <= j <= |entries|
      invariant r.drivers == dev.drivers + AllHandles(entries[..j], a)
      invariant (r.romImage, r.romSize) == LastDescriptor(ds, a, (dev.romImage, dev.romSize))
    {
      assert entries[..j + 1][..j] == entries[..j];
      if entries[j].addr == a {
        r := r.(drivers := r.drivers + [entries[j].imageHandle]);
      }
      j := j + 1;
    }
    assert entries[..j] == entries;
    status := Success;
  }

  /** The option-ROM table lookup and the image-table lookup agree on the drivers when no mapping for the device lacks a handle. */
  lemma {:induction false} HandlesAgree(entries: seq<Mapping>, a: PciAddress)
    requires forall i :: 0 <= i < |entries| ==> !RomMapping(entries[i], a)
    ensures AllHandles(entries, a) == DriverHandles(entries, a)
  {
    if |entries| > 0 {
      var init := entries[..|entries| - 1];
      forall i | 0 <= i < |init| ensures !RomMapping(init[i], a) {
        assert init[i] == entries[i];
      }
      HandlesAgree(init, a);
      assert !RomMapping(entries[|entries| - 1], a);
    }
  }
}
