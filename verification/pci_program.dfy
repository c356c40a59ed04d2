/**
 * Programming the planned resources into the hardware.
 *
 * After the host bridge has granted a base address for every root tree,
 * ProgramResource walks the tree and writes, for every leaf request, the
 * absolute address Base + Offset into the device's BAR, the bridge windows
 * into the PCI-PCI and CardBus bridge registers, and records the assignment
 * in the device's BAR table.
 *
 * Configuration-space writes are not performed here: every operation
 * returns the list of actions it takes, in order. The single read the code
 * makes (the CardBus bridge-control register, which is read, modified and
 * written back) is answered from the writes already in the list, or from
 * an initial register value given as a parameter.
 */
module PciProgram {
  import opened Bits
  import opened Efi
  import opened PciTree
  import opened PciMap

  /** gAllOne: the base the host bridge reports for a request it could not place. */
  const ALL_ONE: nat := 0xFFFF_FFFF_FFFF_FFFF

  /** PPB_BAR_0 / PPB_BAR_1: a PCI-PCI bridge's own BARs. */
  const PPB_BAR_0: nat := 0
  const PPB_BAR_1: nat := 1

  /** Window registers of a PCI-PCI bridge (type 1 header). */
  const PPB_IO_BASE: nat := 0x1C
  const PPB_IO_LIMIT: nat := 0x1D
  const PPB_MEM_BASE: nat := 0x20
  const PPB_MEM_LIMIT: nat := 0x22
  const PPB_PMEM_BASE: nat := 0x24
  const PPB_PMEM_LIMIT: nat := 0x26
  const PPB_PMEM_BASE_UPPER: nat := 0x28
  const PPB_PMEM_LIMIT_UPPER: nat := 0x2C
  const PPB_IO_BASE_UPPER: nat := 0x30
  const PPB_IO_LIMIT_UPPER: nat := 0x32

  /** The requests of a CardBus bridge, by Bar number. */
  const P2C_BAR_0: nat := 0
  const P2C_MEM_1: nat := 1
  const P2C_MEM_2: nat := 2
  const P2C_IO_1: nat := 3
  const P2C_IO_2: nat := 4

  /** Window registers of a CardBus bridge (type 2 header). */
  const CARD_MEMORY_BASE_0: nat := 0x1C
  const CARD_MEMORY_LIMIT_0: nat := 0x20
  const CARD_MEMORY_BASE_1: nat := 0x24
  const CARD_MEMORY_LIMIT_1: nat := 0x28
  const CARD_IO_BASE_0: nat := 0x2C
  const CARD_IO_LIMIT_0: nat := 0x30
  const CARD_IO_BASE_1: nat := 0x34
  const CARD_IO_LIMIT_1: nat := 0x38
  const CARD_BRIDGE_CONTROL: nat := 0x3E
  const CARD_PREFETCHABLE_MEMORY_0_ENABLE: nat := 0x100
  const CARD_PREFETCHABLE_MEMORY_1_ENABLE: nat := 0x200

  /** EFI_PCI_IO_PROTOCOL_WIDTH of a configuration write. */
  datatype Width = Uint8 | Uint16 | Uint32

  /** 2^(bits of the width): the value a write of that width wraps at. */
  function Modulus(w: Width): nat
  {
    match w
    case Uint8 => U8
    case Uint16 => U16
    case Uint32 => U32
  }


  /** What programming does, in order. */
  datatype Action =
    | CfgWrite(dev: nat, width: Width, reg: nat, value: nat)
      /** Allocated := TRUE on the device. */
    | MarkAllocated(dev: nat)
      /** The BaseAddress (and, for windows, Length and BarType) kept in the BAR table. */
    | RecordBar(dev: nat, vf: bool, bar: nat, base: nat, length: Option<nat>, barType: Option<BarType>)

  /**
   * A configuration write of a C variable: the device sees the low bytes of
   * the value, as many as the width says.
   */
  function Write(dev: nat, width: Width, reg: nat, value: int): (a: Action)
    ensures a.CfgWrite? && a.dev == dev && a.width == width && a.reg == reg
    ensures a.value < Modulus(width)
  {
    CfgWrite(dev, width, reg, value % Modulus(width))
  }

  /** The value last written to register `reg` of device `dev`, if any. */
  function Reg(log: seq<Action>, dev: nat, reg: nat): Option<nat>
  {
    if log == [] then None
    else
      var a := log[|log| - 1];
      if a.CfgWrite? && a.dev == dev && a.reg == reg then Some(a.value)
      else Reg(log[..|log| - 1], dev, reg)
  }

  /** Every configuration write of `log` goes to device `dev`, at one of `regs`. */
  predicate WritesOnly(log: seq<Action>, dev: nat, regs: set<nat>)
  {
    forall i :: 0 <= i < |log| && log[i].CfgWrite? ==> log[i].dev == dev && log[i].reg in regs
  }

  /** Base + Node->Offset in UINT64. */
  function Address(base: nat, n: Node): nat
  {
    (base + n.offset) % U64
  }

  /** Base + Offset + Length - 1 in UINT64: the last address of a window. */
  function LastAddress(base: nat, n: Node): nat
  {
    (Address(base, n) + n.length - 1) % U64
  }

  // ---------------------------------------------------------------------
  // Device BARs

  /**
   * The writes of one BAR: a 32-bit BAR gets the low dword of the address,
   * a 64-bit BAR the low dword at its offset and the high dword at `hiReg`.
   */
  function BarWrites(dev: nat, bar: BarInfo, hiReg: nat, a: nat): (r: seq<Action>)
  {
    match bar.barType
    case Io16 => [Write(dev, Uint32, bar.regOffset, a)]
    case Io32 => [Write(dev, Uint32, bar.regOffset, a)]
    case Mem32 => [Write(dev, Uint32, bar.regOffset, a)]
    case PMem32 => [Write(dev, Uint32, bar.regOffset, a)]
    case Mem64 => [Write(dev, Uint32, bar.regOffset, a % U32), Write(dev, Uint32, hiReg, a / U32)]
    case PMem64 => [Write(dev, Uint32, bar.regOffset, a % U32), Write(dev, Uint32, hiReg, a / U32)]
    case Unknown => []
  }

  predicate Is64(t: BarType)
  {
    t == Mem64 || t == PMem64
  }

  /**
   * Reading the BAR back gives the address: the single dword of a 32-bit
   * BAR is the address mod 2^32, and high * 2^32 + low of a 64-bit BAR is
   * the whole address. Writes go to the BAR's own registers only.
   */
  lemma BarWritesRecover(dev: nat, bar: BarInfo, hiReg: nat, a: nat)
    requires a < U64
    ensures var r := BarWrites(dev, bar, hiReg, a);
      && WritesOnly(r, dev, {bar.regOffset, hiReg})
      && (bar.barType == Unknown ==> r == [])
      && (bar.barType != Unknown && !Is64(bar.barType) ==> |r| == 1 && r[0].value == a % U32)
      && (Is64(bar.barType) ==>
            |r| == 2 && r[0].CfgWrite? && r[1].CfgWrite? && r[0].reg == bar.regOffset && r[1].reg == hiReg
            && r[0].value + r[1].value * U32 == a)
  {
    SplitDwords(a);
  }

  /** ProgramVfBar: an SR-IOV virtual-function BAR. I/O VF BARs get nothing. */
  function ProgramVfBar(base: nat, n: Node): (r: seq<Action>)
    ensures |r| >= 1 && r[0] == MarkAllocated(n.owner.id)
    ensures var bar := BarAt(n.owner.vfBars, n.bar);
      WritesOnly(r, n.owner.id, {bar.regOffset, bar.regOffset + 4})
  {
    var a := Address(base, n);
    var bar := BarAt(n.owner.vfBars, n.bar);
    var dev := n.owner.id;
    var w := match bar.barType
      case Io16 => []
      case Io32 => []
      case Unknown => []
      case _ => BarWrites(dev, bar, bar.regOffset + 4, a);
    BarWritesRecover(dev, bar, bar.regOffset + 4, a);
    [MarkAllocated(dev)] + w + (if bar.barType in {Mem32, PMem32, Mem64, PMem64}
                                then [RecordBar(dev, true, n.bar, a, None, None)] else [])
  }

  /** The physical half of ProgramBar: the high dword's offset is cast to UINT8. */
  function ProgramPhysicalBar(base: nat, n: Node): (r: seq<Action>)
    ensures |r| >= 1 && r[0] == MarkAllocated(n.owner.id)
    ensures var bar := BarAt(n.owner.bars, n.bar);
      WritesOnly(r, n.owner.id, {bar.regOffset, (bar.regOffset + 4) % U8})
  {
    var a := Address(base, n);
    var bar := BarAt(n.owner.bars, n.bar);
    var dev := n.owner.id;
    BarWritesRecover(dev, bar, (bar.regOffset + 4) % U8, a);
    [MarkAllocated(dev)] + BarWrites(dev, bar, (bar.regOffset + 4) % U8, a)
      + (if bar.barType == Unknown then [] else [RecordBar(dev, false, n.bar, a, None, None)])
  }

  /**
   * ProgramBar as the driver has it: a virtual-function node is programmed
   * through ProgramVfBar and then, because nothing returns, once more
   * through the physical BAR table.
   */
  function ProgramBarAsWritten(base: nat, n: Node): (r: seq<Action>)
    ensures n.isVirtual ==> ProgramVfBar(base, n) <= r
    ensures |r| >= |ProgramPhysicalBar(base, n)| && r[|r| - |ProgramPhysicalBar(base, n)|..] == ProgramPhysicalBar(base, n)
  {
    var vf := if n.isVirtual then ProgramVfBar(base, n) else [];
    assert (vf + ProgramPhysicalBar(base, n))[|vf|..] == ProgramPhysicalBar(base, n);
    vf + ProgramPhysicalBar(base, n)
  }

  /**
   * ProgramBar with the evident intent: a virtual-function node is
   * programmed through the VF BAR table only. Every write goes to the
   * registers of the table entry that matches the node, and reading the
   * BAR back gives Base + Offset.
   */
  function ProgramBar(base: nat, n: Node): (r: seq<Action>)
    ensures |r| >= 1 && r[0] == MarkAllocated(n.owner.id)
    ensures var bar := BarAt(if n.isVirtual then n.owner.vfBars else n.owner.bars, n.bar);
      var hiReg := if n.isVirtual then bar.regOffset + 4 else (bar.regOffset + 4) % U8;
      && WritesOnly(r, n.owner.id, {bar.regOffset, hiReg})
      && (Is64(bar.barType) ==>
            |r| == 4 && r[1].CfgWrite? && r[2].CfgWrite? && r[1].reg == bar.regOffset && r[2].reg == hiReg
            && r[1].value + r[2].value * U32 == Address(base, n))
      && (bar.barType in {Mem32, PMem32} ==>
            |r| == 3 && r[1].CfgWrite? && r[1].reg == bar.regOffset && r[1].value == Address(base, n) % U32)
  {
    var bar := BarAt(if n.isVirtual then n.owner.vfBars else n.owner.bars, n.bar);
    var hiReg := if n.isVirtual then bar.regOffset + 4 else (bar.regOffset + 4) % U8;
    BarWritesRecover(n.owner.id, bar, hiReg, Address(base, n));
    if n.isVirtual then ProgramVfBar(base, n) else ProgramPhysicalBar(base, n)
  }

  /**
   * The two versions of ProgramBar differ exactly on virtual-function
   * nodes: for a request of the device's own BARs the corrected version is
   * the driver's.
   */
  lemma ProgramBarAgreesOffVf(base: nat, n: Node)
    ensures ProgramBarAsWritten(base, n) == ProgramBar(base, n) <==> !n.isVirtual
  {
    if n.isVirtual {
      assert |ProgramBarAsWritten(base, n)| > |ProgramVfBar(base, n)|;
    }
  }

  /** The device of the counterexample: BAR0 and VF BAR0 are both 32-bit memory. */
  function SriovOwner(): Owner
  {
    Owner(7, Endpoint, [BarInfo(Mem32, 0x1000, 0xFFF, 0x10)], [BarInfo(Mem32, 0x4000, 0x3FFF, 0x184)], 0)
  }

  /** The VF BAR0 request of that device, placed at 0x4000 in its tree. */
  function SriovVfNode(): Node
  {
    CreateVfResourceNode(SriovOwner(), 0x4000, 0x3FFF, 0, Mem32, Typical).(offset := 0x4000)
  }

  /**
   * As written, programming the VF request at Base 0x8000_0000 leaves the
   * VF address 0x8000_4000 in the physical BAR0 register (0x10), which
   * held the device's own BAR; the intended version leaves 0x10 alone.
   */
  lemma VfBarOverwritesPhysicalBar()
    ensures Reg(ProgramBarAsWritten(0x8000_0000, SriovVfNode()), 7, 0x10) == Some(0x8000_4000)
    ensures Reg(ProgramBarAsWritten(0x8000_0000, SriovVfNode()), 7, 0x184) == Some(0x8000_4000)
    ensures Reg(ProgramBar(0x8000_0000, SriovVfNode()), 7, 0x10) == None
    ensures Reg(ProgramBar(0x8000_0000, SriovVfNode()), 7, 0x184) == Some(0x8000_4000)
  {
    var n := SriovVfNode();
    var vf := ProgramVfBar(0x8000_0000, n);
    var ph := ProgramPhysicalBar(0x8000_0000, n);
    SriovVfLog();
    SriovPhysicalLog();
    assert ProgramBarAsWritten(0x8000_0000, n) == vf + ph;
    RegSteps(vf, 7, 0x10);
    RegSteps(vf, 7, 0x184);
    RegSteps(ph, 7, 0x10);
    RegSteps(ph, 7, 0x184);
    RegAppend(vf, ph, 7, 0x10);
    RegAppend(vf, ph, 7, 0x184);
  }

  /** The counterexample node's address: Base plus its offset 0x4000. */
  lemma SriovAddress()
    ensures Address(0x8000_0000, SriovVfNode()) == 0x8000_4000
  {
    Pow2Values();
    DivModUnique(0x8000_4000, U64, 0, 0x8000_4000);
  }

  /** The VF half writes the VF BAR0 register 0x184. */
  lemma SriovVfLog()
    ensures ProgramVfBar(0x8000_0000, SriovVfNode())
         == [MarkAllocated(7), CfgWrite(7, Uint32, 0x184, 0x8000_4000), RecordBar(7, true, 0, 0x8000_4000, None, None)]
  {
    Pow2Values();
    SriovAddress();
  }

  /** The physical half writes the physical BAR0 register 0x10. */
  lemma SriovPhysicalLog()
    ensures ProgramPhysicalBar(0x8000_0000, SriovVfNode())
         == [MarkAllocated(7), CfgWrite(7, Uint32, 0x10, 0x8000_4000), RecordBar(7, false, 0, 0x8000_4000, None, None)]
  {
    Pow2Values();
    SriovAddress();
  }

  /** The last write to a register over a concatenation. */
  lemma {:induction false} RegAppend(a: seq<Action>, b: seq<Action>, dev: nat, reg: nat)
    ensures Reg(a + b, dev, reg) == if Reg(b, dev, reg).Some? then Reg(b, dev, reg) else Reg(a, dev, reg)
  {
    if b != [] {
      assert (a + b)[..|a + b| - 1] == a + b[..|b| - 1];
      RegAppend(a, b[..|b| - 1], dev, reg);
    } else {
      assert a + b == a;
    }
  }

  /** Hits(a, dev, reg): `a` writes register `reg` of device `dev`. */
  predicate Hits(a: Action, dev: nat, reg: nat)
  {
    a.CfgWrite? && a.dev == dev && a.reg == reg
  }

  /** Reg of a short log, spelled out from the last action back (up to six). */
  lemma RegSteps(r: seq<Action>, dev: nat, reg: nat)
    requires |r| <= 6
    ensures Reg(r, dev, reg) ==
      if |r| > 5 && Hits(r[5], dev, reg) then Some(r[5].value)
      else if |r| > 4 && Hits(r[4], dev, reg) then Some(r[4].value)
      else if |r| > 3 && Hits(r[3], dev, reg) then Some(r[3].value)
      else if |r| > 2 && Hits(r[2], dev, reg) then Some(r[2].value)
      else if |r| > 1 && Hits(r[1], dev, reg) then Some(r[1].value)
      else if |r| > 0 && Hits(r[0], dev, reg) then Some(r[0].value)
      else None
  {
    if r != [] {
      var p := r[..|r| - 1];
      RegSteps(p, dev, reg);
      assert forall i :: 0 <= i < |p| ==> p[i] == r[i];
    }
  }

  /** A log with no write to a register reads back nothing for it. */
  lemma {:induction false} RegNotIn(log: seq<Action>, dev: nat, reg: nat)
    requires forall i :: 0 <= i < |log| && log[i].CfgWrite? ==> log[i].dev != dev || log[i].reg != reg
    ensures Reg(log, dev, reg) == None
  {
    if log != [] {
      RegNotIn(log[..|log| - 1], dev, reg);
    }
  }

  /** A 64-bit address written as two dwords, low then high, is high * 2^32 + low. */
  lemma SplitDwords(a: nat)
    requires a < U64
    ensures a % U32 + (a / U32 % U32) * U32 == a
  {
    FieldArith(a, U32, U32, U64);
  }

  // ---------------------------------------------------------------------
  // PCI-PCI bridge windows

  /**
   * ProgramPpbApperture: a bridge window. Zero-length and padding windows are
   * left alone; the memory window of 64-bit non-prefetchable type
   * (PPB_MEM64_RANGE) has no register and nothing is written for it.
   */
  function ProgramPpbApperture(base: nat, n: Node): (r: seq<Action>)
    ensures n.length == 0 || n.usage == Padding ==> r == []
    ensures WritesOnly(r, n.owner.id, PpbRegs(n))
  {
    if n.length == 0 || n.usage == Padding then []
    else
      var dev := n.owner.id;
      var a := Address(base, n);
      var last := LastAddress(base, n);
      var a32 := a % U32;
      var l32 := last % U32;
      var record := [RecordBar(dev, false, n.bar, a, Some(n.length), None)];
      [MarkAllocated(dev)] +
      if n.bar == PPB_BAR_0 || n.bar == PPB_BAR_1 then
        [Write(dev, Uint32, BarAt(n.owner.bars, n.bar).regOffset, a)] + record
      else if n.bar == PPB_IO_RANGE then
        [Write(dev, Uint8, PPB_IO_BASE, a32 / 0x100),
         Write(dev, Uint16, PPB_IO_BASE_UPPER, a32 / 0x100 / 0x100),
         Write(dev, Uint8, PPB_IO_LIMIT, l32 / 0x100),
         Write(dev, Uint16, PPB_IO_LIMIT_UPPER, l32 / 0x100 / 0x100)] + record
      else if n.bar == PPB_MEM32_RANGE then
        [Write(dev, Uint16, PPB_MEM_BASE, a32 / 0x1_0000),
         Write(dev, Uint16, PPB_MEM_LIMIT, l32 / 0x1_0000)] + record
      else if n.bar == PPB_PMEM32_RANGE || n.bar == PPB_PMEM64_RANGE then
        [Write(dev, Uint16, PPB_PMEM_BASE, a32 / 0x1_0000),
         Write(dev, Uint16, PPB_PMEM_LIMIT, l32 / 0x1_0000),
         Write(dev, Uint32, PPB_PMEM_BASE_UPPER, a / U32),
         Write(dev, Uint32, PPB_PMEM_LIMIT_UPPER, last / U32)] + record
      else []
  }

  /** The registers a window node may write. */
  function PpbRegs(n: Node): set<nat>
  {
    if n.bar == PPB_BAR_0 || n.bar == PPB_BAR_1 then {BarAt(n.owner.bars, n.bar).regOffset}
    else if n.bar == PPB_IO_RANGE then {PPB_IO_BASE, PPB_IO_BASE_UPPER, PPB_IO_LIMIT, PPB_IO_LIMIT_UPPER}
    else if n.bar == PPB_MEM32_RANGE then {PPB_MEM_BASE, PPB_MEM_LIMIT}
    else {PPB_PMEM_BASE, PPB_PMEM_LIMIT, PPB_PMEM_BASE_UPPER, PPB_PMEM_LIMIT_UPPER}
  }

  lemma DivDiv(x: nat, p: nat, q: nat, pq: nat)
    requires p > 0 && q > 0 && pq == p * q
    ensures x / p / q == x / pq
  {
    var u, t := (x / p) / q, (x / p) % q;
    Recompose(x, p, q, x / p, x % p, u, t);
    DivModUnique(x, pq, u, t * p + x % p);
  }

  lemma ModOfMod(x: nat, p: nat, q: nat, pq: nat)
    requires p > 0 && q > 0 && pq == p * q
    ensures (x % pq) % p == x % p
  {
    var s, t := x / pq, x % pq;
    var u, v := t / p, t % p;
    assert x == pq * s + t;
    assert t == p * u + v;
    assert x == p * (q * s + u) + v;
    DivModUnique(x, p, q * s + u, v);
  }

  /**
   * The address a pair of window registers stands for: `lower` counts units
   * of `lowerUnit` bytes, `upper` units of `upperUnit` bytes.
   */
  function WindowValue(lower: nat, lowerUnit: nat, upper: nat, upperUnit: nat): nat
  {
    upper * upperUnit + lower * lowerUnit
  }

  /**
   * The I/O window registers read back as the 32-bit address with its low
   * byte cleared: the base byte holds bits 8..15 and the upper word bits
   * 16..31.
   */
  lemma IoWindowRegisters(x: nat)
    requires x < U32
    ensures WindowValue(x / 0x100 % U8, 0x100, x / 0x100 / 0x100 % U16, 0x1_0000) == x - x % 0x100
  {
    FieldArith(x, 0x100, 0x100, 0x1_0000);
    DivDiv(x, 0x100, 0x100, 0x1_0000);
    FieldArith(x, 0x1_0000, 0x1_0000, U32);
  }

  /** The 16-bit memory window registers hold bits 16..31 of the address. */
  lemma MemWindowRegister(x: nat)
    requires x < U32
    ensures WindowValue(x / 0x1_0000 % U16, 0x1_0000, 0, U32) == x - x % 0x1_0000
  {
    FieldArith(x, 0x1_0000, 0x1_0000, U32);
  }

  /**
   * The prefetchable window registers: the base word holds bits 16..31 and
   * the upper dword bits 32..63, so together they give the 64-bit address
   * with its low 16 bits cleared.
   */
  lemma PrefetchableWindowRegisters(x: nat)
    requires x < U64
    ensures WindowValue(x % U32 / 0x1_0000 % U16, 0x1_0000, x / U32 % U32, U32) == x - x % 0x1_0000
  {
    MemWindowRegister(x % U32);
    ModOfMod(x, 0x1_0000, 0x1_0000, U32);
    SplitDwords(x);
  }

  /** The window base, read back from the registers `r` wrote. */
  function WindowBase(r: seq<Action>, n: Node): nat
  {
    var dev := n.owner.id;
    if n.bar == PPB_IO_RANGE then
      WindowValue(Reg(r, dev, PPB_IO_BASE).UnwrapOr(0), 0x100, Reg(r, dev, PPB_IO_BASE_UPPER).UnwrapOr(0), 0x1_0000)
    else if n.bar == PPB_MEM32_RANGE then
      WindowValue(Reg(r, dev, PPB_MEM_BASE).UnwrapOr(0), 0x1_0000, 0, U32)
    else
      WindowValue(Reg(r, dev, PPB_PMEM_BASE).UnwrapOr(0), 0x1_0000, Reg(r, dev, PPB_PMEM_BASE_UPPER).UnwrapOr(0), U32)
  }

  /**
   * The window limit, read back the same way: the bridge decodes every
   * address up to the end of the granule the limit registers name.
   */
  function WindowLimit(r: seq<Action>, n: Node): nat
  {
    var dev := n.owner.id;
    Granule(n) - 1 +
    if n.bar == PPB_IO_RANGE then
      WindowValue(Reg(r, dev, PPB_IO_LIMIT).UnwrapOr(0), 0x100, Reg(r, dev, PPB_IO_LIMIT_UPPER).UnwrapOr(0), 0x1_0000)
    else if n.bar == PPB_MEM32_RANGE then
      WindowValue(Reg(r, dev, PPB_MEM_LIMIT).UnwrapOr(0), 0x1_0000, 0, U32)
    else
      WindowValue(Reg(r, dev, PPB_PMEM_LIMIT).UnwrapOr(0), 0x1_0000, Reg(r, dev, PPB_PMEM_LIMIT_UPPER).UnwrapOr(0), U32)
  }

  /** The register granularity of a window: 256 bytes for I/O, 64 KiB for memory. */
  function Granule(n: Node): nat
  {
    if n.bar == PPB_IO_RANGE then 0x100 else 0x1_0000
  }

  /** The part of an address a window of that kind can express. */
  function Expressible(x: nat, n: Node): nat
  {
    if n.bar == PPB_IO_RANGE || n.bar == PPB_MEM32_RANGE then x % U32 else x
  }

  /**
   * The window registers of a bridge read back as its base and last
   * address, each rounded down to the register granularity; I/O and 32-bit
   * memory windows keep the low 32 bits.
   */
  lemma PpbWindowReadBack(base: nat, n: Node)
    requires n.length != 0 && n.usage != Padding
    requires n.bar in {PPB_IO_RANGE, PPB_MEM32_RANGE, PPB_PMEM32_RANGE, PPB_PMEM64_RANGE}
    ensures var r := ProgramPpbApperture(base, n);
      var a := Expressible(Address(base, n), n);
      var l := Expressible(LastAddress(base, n), n);
      && WindowBase(r, n) == a - a % Granule(n)
      && WindowLimit(r, n) == l - l % Granule(n) + Granule(n) - 1
  {
    var r := ProgramPpbApperture(base, n);
    var dev := n.owner.id;
    var a, last := Address(base, n), LastAddress(base, n);
    var a32, l32 := a % U32, last % U32;
    if n.bar == PPB_IO_RANGE {
      IoWindowRegisters(a32);
      IoWindowRegisters(l32);
      IoRegs(r, dev, a32, l32);
    } else if n.bar == PPB_MEM32_RANGE {
      MemWindowRegister(a32);
      MemWindowRegister(l32);
      MemRegs(r, dev, a32, l32);
    } else {
      PrefetchableWindowRegisters(a);
      PrefetchableWindowRegisters(last);
      PMemRegs(r, dev, a, last);
    }
  }

  lemma IoRegs(r: seq<Action>, dev: nat, a32: nat, l32: nat)
    requires |r| == 6 && r[0] == MarkAllocated(dev) && r[5].RecordBar?
    requires r[1] == Write(dev, Uint8, PPB_IO_BASE, a32 / 0x100)
    requires r[2] == Write(dev, Uint16, PPB_IO_BASE_UPPER, a32 / 0x100 / 0x100)
    requires r[3] == Write(dev, Uint8, PPB_IO_LIMIT, l32 / 0x100)
    requires r[4] == Write(dev, Uint16, PPB_IO_LIMIT_UPPER, l32 / 0x100 / 0x100)
    ensures Reg(r, dev, PPB_IO_BASE) == Some(a32 / 0x100 % U8)
    ensures Reg(r, dev, PPB_IO_BASE_UPPER) == Some(a32 / 0x100 / 0x100 % U16)
    ensures Reg(r, dev, PPB_IO_LIMIT) == Some(l32 / 0x100 % U8)
    ensures Reg(r, dev, PPB_IO_LIMIT_UPPER) == Some(l32 / 0x100 / 0x100 % U16)
  {
    RegSteps(r, dev, PPB_IO_BASE);
    RegSteps(r, dev, PPB_IO_BASE_UPPER);
    RegSteps(r, dev, PPB_IO_LIMIT);
    RegSteps(r, dev, PPB_IO_LIMIT_UPPER);
  }

  lemma MemRegs(r: seq<Action>, dev: nat, a32: nat, l32: nat)
    requires |r| == 4 && r[0] == MarkAllocated(dev) && r[3].RecordBar?
    requires r[1] == Write(dev, Uint16, PPB_MEM_BASE, a32 / 0x1_0000)
    requires r[2] == Write(dev, Uint16, PPB_MEM_LIMIT, l32 / 0x1_0000)
    ensures Reg(r, dev, PPB_MEM_BASE) == Some(a32 / 0x1_0000 % U16)
    ensures Reg(r, dev, PPB_MEM_LIMIT) == Some(l32 / 0x1_0000 % U16)
  {
    RegSteps(r, dev, PPB_MEM_BASE);
    RegSteps(r, dev, PPB_MEM_LIMIT);
  }

  lemma PMemRegs(r: seq<Action>, dev: nat, a: nat, last: nat)
    requires |r| == 6 && r[0] == MarkAllocated(dev) && r[5].RecordBar?
    requires r[1] == Write(dev, Uint16, PPB_PMEM_BASE, a % U32 / 0x1_0000)
    requires r[2] == Write(dev, Uint16, PPB_PMEM_LIMIT, last % U32 / 0x1_0000)
    requires r[3] == Write(dev, Uint32, PPB_PMEM_BASE_UPPER, a / U32)
    requires r[4] == Write(dev, Uint32, PPB_PMEM_LIMIT_UPPER, last / U32)
    ensures Reg(r, dev, PPB_PMEM_BASE) == Some(a % U32 / 0x1_0000 % U16)
    ensures Reg(r, dev, PPB_PMEM_LIMIT) == Some(last % U32 / 0x1_0000 % U16)
    ensures Reg(r, dev, PPB_PMEM_BASE_UPPER) == Some(a / U32 % U32)
    ensures Reg(r, dev, PPB_PMEM_LIMIT_UPPER) == Some(last / U32 % U32)
  {
    RegSteps(r, dev, PPB_PMEM_BASE);
    RegSteps(r, dev, PPB_PMEM_LIMIT);
    RegSteps(r, dev, PPB_PMEM_BASE_UPPER);
    RegSteps(r, dev, PPB_PMEM_LIMIT_UPPER);
  }

  /**
   * A window aligned to its granularity at both ends reads back exactly:
   * base Base + Offset and limit Base + Offset + Length - 1.
   */
  lemma PpbAlignedWindowExact(base: nat, n: Node)
    requires n.length != 0 && n.usage != Padding
    requires n.bar in {PPB_IO_RANGE, PPB_MEM32_RANGE, PPB_PMEM32_RANGE, PPB_PMEM64_RANGE}
    requires base + n.offset + n.length <= if n.bar in {PPB_IO_RANGE, PPB_MEM32_RANGE} then U32 else U64
    requires (base + n.offset) % Granule(n) == 0 && n.length % Granule(n) == 0
    ensures WindowBase(ProgramPpbApperture(base, n), n) == base + n.offset
    ensures WindowLimit(ProgramPpbApperture(base, n), n) == base + n.offset + n.length - 1
  {
    var a := base + n.offset;
    var e := a + n.length;
    var g := Granule(n);
    AlignedEnds(a, n.length, g);
    assert Address(base, n) == a && LastAddress(base, n) == e - 1 by {
      ModSmall(a, U64);
      ModSmall(e - 1, U64);
    }
    assert Expressible(a, n) == a && Expressible(e - 1, n) == e - 1 by {
      if n.bar in {PPB_IO_RANGE, PPB_MEM32_RANGE} {
        ModSmall(a, U32);
        ModSmall(e - 1, U32);
      }
    }
    PpbWindowReadBack(base, n);
  }

  lemma ModSmall(x: nat, m: nat)
    requires x < m
    ensures x % m == x
  {
  }

  /** Both ends of a window aligned to g are aligned: the last byte is g - 1 into its granule. */
  lemma AlignedEnds(a: nat, len: nat, g: nat)
    requires g > 0 && len > 0 && a % g == 0 && len % g == 0
    ensures a - a % g == a
    ensures (a + len - 1) - (a + len - 1) % g + g - 1 == a + len - 1
  {
    DivModUnique(a + len, g, a / g + len / g, 0);
    LastInGranule(a + len, g);
  }

  /** The address just below a multiple of g sits g - 1 into its granule. */
  lemma LastInGranule(e: nat, g: nat)
    requires g > 0 && e > 0 && e % g == 0
    ensures (e - 1) % g == g - 1
  {
    DivModUnique(e - 1, g, e / g - 1, g - 1);
  }

  // ---------------------------------------------------------------------
  // CardBus bridges

  /**
   * The bridge-control value the read in ProgramP2C returns: the last value
   * written to it, or the register's initial contents.
   */
  function BridgeControl(log: seq<Action>, init: nat -> nat, dev: nat): (v: nat)
    ensures v < U16
  {
    match Reg(log, dev, CARD_BRIDGE_CONTROL)
    case Some(v) => v % U16
    case None => init(dev) % U16
  }

  /**
   * ProgramP2C: a CardBus bridge's BAR or one of its four windows. A memory
   * window also sets (prefetchable) or clears (Mem32) its prefetch-enable
   * bit with a read-modify-write of the bridge-control register; `log`
   * holds the writes made so far, so the read sees them.
   */
  function ProgramP2C(base: nat, n: Node, log: seq<Action>, init: nat -> nat): (r: seq<Action>)
    ensures |r| >= 1 && r[0] == MarkAllocated(n.owner.id)
    ensures WritesOnly(r, n.owner.id, P2cRegs(n))
  {
    var dev := n.owner.id;
    var a := Address(base, n);
    var last := LastAddress(base, n);
    var record := [RecordBar(dev, false, n.bar, a, Some(n.length), Some(n.resType))];
    [MarkAllocated(dev)] +
    if n.bar == P2C_BAR_0 then
      [Write(dev, Uint32, BarAt(n.owner.bars, n.bar).regOffset, a),
       RecordBar(dev, false, n.bar, a, Some(n.length), None)]
    else if n.bar == P2C_MEM_1 || n.bar == P2C_MEM_2 then
      var (baseReg, limitReg) :=
        if n.bar == P2C_MEM_1 then (CARD_MEMORY_BASE_0, CARD_MEMORY_LIMIT_0)
        else (CARD_MEMORY_BASE_1, CARD_MEMORY_LIMIT_1);
      [Write(dev, Uint32, baseReg, a),
       Write(dev, Uint32, limitReg, last),
       Write(dev, Uint16, CARD_BRIDGE_CONTROL, NewControl(BridgeControl(log, init, dev), n))] + record
    else if n.bar == P2C_IO_1 then
      [Write(dev, Uint32, CARD_IO_BASE_0, a), Write(dev, Uint32, CARD_IO_LIMIT_0, last)] + record
    else if n.bar == P2C_IO_2 then
      [Write(dev, Uint32, CARD_IO_BASE_1, a), Write(dev, Uint32, CARD_IO_LIMIT_1, last)] + record
    else []
  }

  function P2cRegs(n: Node): set<nat>
  {
    if n.bar == P2C_BAR_0 then {BarAt(n.owner.bars, n.bar).regOffset}
    else if n.bar == P2C_MEM_1 then {CARD_MEMORY_BASE_0, CARD_MEMORY_LIMIT_0, CARD_BRIDGE_CONTROL}
    else if n.bar == P2C_MEM_2 then {CARD_MEMORY_BASE_1, CARD_MEMORY_LIMIT_1, CARD_BRIDGE_CONTROL}
    else if n.bar == P2C_IO_1 then {CARD_IO_BASE_0, CARD_IO_LIMIT_0}
    else {CARD_IO_BASE_1, CARD_IO_LIMIT_1}
  }

  /** The bit of the bridge-control register that enables prefetching for a window. */
  function EnableBit(n: Node): nat
  {
    if n.bar == P2C_MEM_1 then 8 else 9
  }

  /** The prefetch-enable mask of a CardBus memory window. */
  function EnableMask(n: Node): (m: nat)
    ensures m == Pow2(EnableBit(n)) && m < U16
  {
    Pow2Values();
    Pow2Add(8, 1);
    if n.bar == P2C_MEM_1 then CARD_PREFETCHABLE_MEMORY_0_ENABLE else CARD_PREFETCHABLE_MEMORY_1_ENABLE
  }

  /** The read-modify-write of the bridge-control register: clear the enable bit for Mem32, set it otherwise. */
  function NewControl(ctl: nat, n: Node): nat
    requires ctl < U16
  {
    Pow2Values();
    if n.resType == Mem32 then And(ctl, Not(EnableMask(n), 16)) else Or(ctl, EnableMask(n))
  }

  /** The new control value differs from the old one in the enable bit alone. */
  lemma NewControlBits(ctl: nat, n: Node)
    requires ctl < U16
    ensures var after := NewControl(ctl, n) % U16;
      && (Bit(after, EnableBit(n)) <==> n.resType != Mem32)
      && forall k :: 0 <= k < 16 && k != EnableBit(n) ==> (Bit(after, k) <==> Bit(ctl, k))
  {
    Pow2Values();
    var enable := EnableMask(n);
    var e := EnableBit(n);
    var newCtl := NewControl(ctl, n);
    assert Trunc(newCtl, 16) == newCtl % U16;
    forall k | 0 <= k < 16
      ensures Bit(Trunc(newCtl, 16), k) <==> (if k == e then n.resType != Mem32 else Bit(ctl, k))
    {
      BitTrunc(newCtl, 16, k);
      BitPow2(e, k);
      if n.resType == Mem32 {
        BitAnd(ctl, Not(enable, 16), k);
        BitNot(enable, 16, k);
      } else {
        BitOr(ctl, enable, k);
      }
    }
  }

  /**
   * A CardBus memory window leaves the bridge-control register with its
   * prefetch-enable bit set exactly when the window is not Mem32, and every
   * other bit as it was read.
   */
  lemma P2cControlBits(base: nat, n: Node, log: seq<Action>, init: nat -> nat)
    requires n.bar == P2C_MEM_1 || n.bar == P2C_MEM_2
    ensures var r := ProgramP2C(base, n, log, init);
      var before := BridgeControl(log, init, n.owner.id);
      var after := BridgeControl(log + r, init, n.owner.id);
      && (Bit(after, EnableBit(n)) <==> n.resType != Mem32)
      && forall k :: 0 <= k < 16 && k != EnableBit(n) ==> (Bit(after, k) <==> Bit(before, k))
  {
    P2cMemControl(base, n, log, init);
    NewControlBits(BridgeControl(log, init, n.owner.id), n);
  }

  /** A CardBus memory window's log ends its bridge-control writes with the new control value. */
  lemma P2cMemControl(base: nat, n: Node, log: seq<Action>, init: nat -> nat)
    requires n.bar == P2C_MEM_1 || n.bar == P2C_MEM_2
    ensures BridgeControl(log + ProgramP2C(base, n, log, init), init, n.owner.id)
         == NewControl(BridgeControl(log, init, n.owner.id), n) % U16
  {
    var dev := n.owner.id;
    var a := Address(base, n);
    var (baseReg, limitReg) :=
      if n.bar == P2C_MEM_1 then (CARD_MEMORY_BASE_0, CARD_MEMORY_LIMIT_0)
      else (CARD_MEMORY_BASE_1, CARD_MEMORY_LIMIT_1);
    var newCtl := NewControl(BridgeControl(log, init, dev), n);
    var r := [MarkAllocated(dev)]
      + [Write(dev, Uint32, baseReg, a), Write(dev, Uint32, limitReg, LastAddress(base, n)),
         Write(dev, Uint16, CARD_BRIDGE_CONTROL, newCtl)]
      + [RecordBar(dev, false, n.bar, a, Some(n.length), Some(n.resType))];
    assert ProgramP2C(base, n, log, init) == r;
    ControlWrite(r, dev, newCtl);
    RegAppend(log, r, dev, CARD_BRIDGE_CONTROL);
    DivModUnique(newCtl % U16, U16, 0, newCtl % U16);
  }

  /** The bridge-control write is the last one to that register in a CardBus memory-window log. */
  lemma ControlWrite(r: seq<Action>, dev: nat, newCtl: nat)
    requires |r| == 5 && r[0] == MarkAllocated(dev) && r[4].RecordBar?
    requires r[1].CfgWrite? && r[1].reg != CARD_BRIDGE_CONTROL
    requires r[2].CfgWrite? && r[2].reg != CARD_BRIDGE_CONTROL
    requires r[3] == Write(dev, Uint16, CARD_BRIDGE_CONTROL, newCtl)
    ensures Reg(r, dev, CARD_BRIDGE_CONTROL) == Some(newCtl % U16)
  {
    RegSteps(r, dev, CARD_BRIDGE_CONTROL);
  }

  /** The register a CardBus BAR or window's base address goes to. */
  function P2cBaseReg(n: Node): nat
  {
    if n.bar == P2C_BAR_0 then BarAt(n.owner.bars, n.bar).regOffset
    else if n.bar == P2C_MEM_1 then CARD_MEMORY_BASE_0
    else if n.bar == P2C_MEM_2 then CARD_MEMORY_BASE_1
    else if n.bar == P2C_IO_1 then CARD_IO_BASE_0
    else CARD_IO_BASE_1
  }

  /** The register a CardBus window's last address goes to. */
  function P2cLimitReg(n: Node): nat
  {
    if n.bar == P2C_MEM_1 then CARD_MEMORY_LIMIT_0
    else if n.bar == P2C_MEM_2 then CARD_MEMORY_LIMIT_1
    else if n.bar == P2C_IO_1 then CARD_IO_LIMIT_0
    else CARD_IO_LIMIT_1
  }

  /**
   * The registers ProgramP2C writes read back as what it programs: the
   * BAR or window base holds Base + Offset and a window's limit register
   * Base + Offset + Length - 1, each as the UINT32 register keeps it.
   */
  lemma P2cReadBack(base: nat, n: Node, log: seq<Action>, init: nat -> nat)
    requires n.bar in {P2C_BAR_0, P2C_MEM_1, P2C_MEM_2, P2C_IO_1, P2C_IO_2}
    ensures var r := ProgramP2C(base, n, log, init);
      && Reg(r, n.owner.id, P2cBaseReg(n)) == Some(Address(base, n) % U32)
      && (n.bar != P2C_BAR_0 ==> Reg(r, n.owner.id, P2cLimitReg(n)) == Some(LastAddress(base, n) % U32))
  {
    var r := ProgramP2C(base, n, log, init);
    var dev := n.owner.id;
    RegSteps(r, dev, P2cBaseReg(n));
    if n.bar != P2C_BAR_0 {
      RegSteps(r, dev, P2cLimitReg(n));
    }
  }

  /**
   * A CardBus window inside the 32-bit space reads back exactly: base
   * Base + Offset, limit Base + Offset + Length - 1.
   */
  lemma P2cWindowExact(base: nat, n: Node, log: seq<Action>, init: nat -> nat)
    requires n.bar in {P2C_MEM_1, P2C_MEM_2, P2C_IO_1, P2C_IO_2}
    requires n.length != 0 && base + n.offset + n.length <= U32
    ensures var r := ProgramP2C(base, n, log, init);
      && Reg(r, n.owner.id, P2cBaseReg(n)) == Some(base + n.offset)
      && Reg(r, n.owner.id, P2cLimitReg(n)) == Some(base + n.offset + n.length - 1)
  {
    P2cReadBack(base, n, log, init);
    ModSmall(base + n.offset, U64);
    ModSmall(base + n.offset, U32);
    ModSmall(base + n.offset + n.length - 1, U64);
    ModSmall(base + n.offset + n.length - 1, U32);
  }

  // ---------------------------------------------------------------------
  // The tree walk

  /**
   * The walk fails iff a base it reaches is all ones: the root's, or that of
   * a PCI-PCI bridge child reached through bridges (Base + Offset).
   */
  predicate Fails(base: nat, bridge: Node)
    decreases bridge, 1
  {
    base == ALL_ONE || ChildFails(base, bridge, 0)
  }

  predicate ChildFails(base: nat, bridge: Node, i: nat)
    decreases bridge, 0, |bridge.children| - i
  {
    i < |bridge.children| &&
    ((bridge.children[i].owner.kind == PciBridge && Fails(Address(base, bridge.children[i]), bridge.children[i]))
     || ChildFails(base, bridge, i + 1))
  }

  /**
   * ProgramResource: program every child of `bridge`, in list order. A
   * PCI-PCI bridge child has its subtree programmed first (with base
   * Base + Offset) and then its own window; an error there ends the walk.
   * The result extends `log` with the actions taken.
   */
  function ProgramResource(base: nat, bridge: Node, log: seq<Action>, init: nat -> nat): (r: (Status, seq<Action>))
    ensures r.0 == Success || r.0 == OutOfResources
    ensures r.0 == OutOfResources <==> Fails(base, bridge)
    ensures log <= r.1
    ensures base == ALL_ONE ==> r.1 == log
    decreases bridge, 1
  {
    if base == ALL_ONE then (OutOfResources, log)
    else ProgramChildren(base, bridge, 0, log, init)
  }

  function ProgramChildren(base: nat, bridge: Node, i: nat, log: seq<Action>, init: nat -> nat): (r: (Status, seq<Action>))
    requires i <= |bridge.children|
    ensures r.0 == Success || r.0 == OutOfResources
    ensures r.0 == OutOfResources <==> ChildFails(base, bridge, i)
    ensures log <= r.1
    decreases bridge, 0, |bridge.children| - i
  {
    if i == |bridge.children| then (Success, log)
    else
      var n := bridge.children[i];
      if n.owner.kind != PciBridge then
        var w := if n.owner.kind == CardBus then ProgramP2C(base, n, log, init) else ProgramBar(base, n);
        ProgramChildren(base, bridge, i + 1, log + w, init)
      else
        var (s, sub) := ProgramResource(Address(base, n), n, log, init);
        if s.IsError() then (s, sub)
        else ProgramChildren(base, bridge, i + 1, sub + ProgramPpbApperture(base, n), init)
  }

  /**
   * An error in a bridge child's subtree ends the walk there: neither that
   * bridge's window nor any later sibling is programmed.
   */
  lemma FailureSkipsRest(base: nat, bridge: Node, i: nat, log: seq<Action>, init: nat -> nat)
    requires i < |bridge.children| && base != ALL_ONE
    requires bridge.children[i].owner.kind == PciBridge
    requires Fails(Address(base, bridge.children[i]), bridge.children[i])
    ensures ProgramChildren(base, bridge, i, log, init)
         == (OutOfResources, ProgramResource(Address(base, bridge.children[i]), bridge.children[i], log, init).1)
  {
  }

  /**
   * A bridge whose subtree succeeds has its window programmed after every
   * action of the subtree.
   */
  lemma WindowAfterSubtree(base: nat, bridge: Node, i: nat, log: seq<Action>, init: nat -> nat)
    requires i < |bridge.children| && base != ALL_ONE
    requires bridge.children[i].owner.kind == PciBridge
    requires !Fails(Address(base, bridge.children[i]), bridge.children[i])
    ensures var n := bridge.children[i];
      var sub := ProgramResource(Address(base, n), n, log, init).1;
      sub + ProgramPpbApperture(base, n) <= ProgramChildren(base, bridge, i, log, init).1
  {
  }
}
