/**
 * ISA slave DMA: IsaIoMap (full and slave-only variants), WriteDmaPort and
 * IsaIoAllocateBuffer.
 *
 * Mapping a buffer for a slave DMA transfer validates the operation, the
 * channel and its attributes, moves a buffer that reaches past 16 MiB to a
 * bounce buffer below 16 MiB, clamps the transfer so that it does not cross
 * a 64 KiB boundary, and then programs the 8237 controller through a fixed
 * sequence of byte-wide port writes: mask the channel, clear the byte
 * pointer flip-flop, set the mode, write base address and count
 * (WriteDmaPort), and unmask the channel.
 *
 * Port writes become a log; the status each write returns, the pool
 * allocation and the page allocation are oracle inputs. Bus-master
 * transfers are only mapped, never programmed.
 */
module IsaDma {
  import opened Efi
  import opened Bits

  /** Slave DMA can reach only the first 16 MiB. */
  const ISA_MAX_MEMORY_ADDRESS: nat := 0x100_0000

  /** EFI_ISA_IO_PROTOCOL_OPERATION */
  const OP_BUS_MASTER_READ: nat := 0
  const OP_BUS_MASTER_WRITE: nat := 1
  const OP_BUS_MASTER_COMMON_BUFFER: nat := 2
  const OP_SLAVE_READ: nat := 3
  const OP_SLAVE_WRITE: nat := 4
  const OP_MAXIMUM: nat := 5

  /** EFI_ISA_IO_SLAVE_DMA_ATTRIBUTE_* (bit k is 2^k). */
  const ATTR_SPEED_COMPATIBLE: nat := 0x001
  const ATTR_SPEED_A: nat := 0x002
  const ATTR_SPEED_B: nat := 0x004
  const ATTR_SPEED_C: nat := 0x008
  const ATTR_WIDTH_8: nat := 0x010
  const ATTR_WIDTH_16: nat := 0x020
  const ATTR_SINGLE_MODE: nat := 0x040
  const ATTR_DEMAND_MODE: nat := 0x080
  const ATTR_AUTO_INITIALIZE: nat := 0x100

  /** 8237 registers of the two controllers. */
  const R_WRSMSK_CH0_3: nat := 0x0A
  const R_CBPR_CH0_3: nat := 0x0C
  const R_CHMODE_CH0_3: nat := 0x0B
  const R_WRSMSK_CH4_7: nat := 0xD4
  const R_CBPR_CH4_7: nat := 0xD8
  const R_CHMODE_CH4_7: nat := 0xD6

  /** 8237 register bits. */
  const B_WRSMSK_CMS: nat := 0x04
  const B_CHMODE_INCREMENT: nat := 0x00
  const B_CHMODE_AE: nat := 0x10
  const V_CHMODE_DEMAND: nat := 0x00
  const V_CHMODE_SINGLE: nat := 0x40
  const V_CHMODE_IO2MEM: nat := 0x04
  const V_CHMODE_MEM2IO: nat := 0x08

  /** EFI_ALLOCATE_TYPE and the two memory types a common buffer may use. */
  const ALLOCATE_ANY_PAGES: nat := 0
  const ALLOCATE_MAX_ADDRESS: nat := 1
  const ALLOCATE_ADDRESS: nat := 2
  const MAX_ALLOCATE_TYPE: nat := 3
  const EFI_BOOT_SERVICES_DATA: nat := 4
  const EFI_RUNTIME_SERVICES_DATA: nat := 6

  /** EFI_ISA_IO_ATTRIBUTE_MEMORY_WRITE_COMBINE | EFI_ISA_IO_ATTRIBUTE_MEMORY_CACHED */
  const ATTR_MEMORY_WRITE_COMBINE: nat := 0x080
  const ATTR_MEMORY_CACHED: nat := 0x800
  const MEMORY_ATTRIBUTES: nat := ATTR_MEMORY_WRITE_COMBINE + ATTR_MEMORY_CACHED

  /** One byte written to an I/O port. */
  datatype PortWrite = PortWrite(port: nat, value: nat)

  /** The address, page and count ports of one channel. */
  datatype DmaPorts = DmaPorts(address: nat, page: nat, count: nat)

  /** DmaRegisters[]: channel 4 cascades the two controllers and has no ports. */
  const DMA_REGISTERS: seq<DmaPorts> := [
    DmaPorts(0x00, 0x87, 0x01),
    DmaPorts(0x02, 0x83, 0x03),
    DmaPorts(0x04, 0x81, 0x05),
    DmaPorts(0x06, 0x82, 0x07),
    DmaPorts(0x00, 0x00, 0x00),
    DmaPorts(0xC4, 0x8B, 0xC6),
    DmaPorts(0xC8, 0x89, 0xCA),
    DmaPorts(0xCC, 0x8A, 0xCE)
  ]

  // ---------------------------------------------------------------------
  // Ordered port writes

  /** The status the k-th port write returns; writes past the oracle succeed. */
  function WriteStatus(outcomes: seq<Status>, k: nat): Status
  {
    if k < |outcomes| then outcomes[k] else Success
  }

  /**
   * Performs writes[k..] in order and stops after the first one that fails,
   * returning its status. The log holds every write attempted.
   */
  function RunWrites(writes: seq<PortWrite>, outcomes: seq<Status>, k: nat): (r: (Status, seq<PortWrite>))
    requires k <= |writes|
    ensures |r.1| <= |writes| - k && r.1 == writes[k..k + |r.1|]
    ensures r.0 == Success <==> forall j :: k <= j < |writes| ==> !WriteStatus(outcomes, j).IsError()
    ensures r.0 == Success ==> r.1 == writes[k..]
    ensures r.0.IsError() ==>
      && |r.1| >= 1
      && r.0 == WriteStatus(outcomes, k + |r.1| - 1)
      && forall j :: k <= j < k + |r.1| - 1 ==> !WriteStatus(outcomes, j).IsError()
    decreases |writes| - k
  {
    if k == |writes| then (Success, [])
    else if WriteStatus(outcomes, k).IsError() then (WriteStatus(outcomes, k), [writes[k]])
    else
      var rest := RunWrites(writes, outcomes, k + 1);
      (rest.0, [writes[k]] + rest.1)
  }

  /**
   * The five writes of WriteDmaPort: base bits 0-7 and 8-15 to the address
   * port, bits 16-23 to the page port, then the count's low and high byte
   * to the count port. `x / 0x100 % 0x100` is `(UINT8)((x >> 8) & 0xff)`.
   */
  function DmaPortWrites(ports: DmaPorts, base: nat, count: nat): (r: seq<PortWrite>)
    ensures |r| == 5
    ensures forall i :: 0 <= i < 5 ==> r[i].value < 0x100
  {
    [ PortWrite(ports.address, base % 0x100),
      PortWrite(ports.address, base / 0x100 % 0x100),
      PortWrite(ports.page, base / 0x1_0000 % 0x100),
      PortWrite(ports.count, count % 0x100),
      PortWrite(ports.count, count / 0x100 % 0x100) ]
  }

  /** WriteDmaPort: the five writes, stopping at the first failure. */
  function WriteDmaPort(ports: DmaPorts, base: nat, count: nat, outcomes: seq<Status>): (r: (Status, seq<PortWrite>))
    ensures 1 <= |r.1| <= 5
    ensures r.0 == Success <==> |r.1| == 5 && forall j :: 0 <= j < 5 ==> !WriteStatus(outcomes, j).IsError()
    ensures r.1[0] == PortWrite(ports.address, base % 0x100)
  {
    var writes := DmaPortWrites(ports, base, count);
    var r := RunWrites(writes, outcomes, 0);
    assert writes[0..] == writes;
    r
  }

  /**
   * The bytes WriteDmaPort sends put the 24-bit base address and the 16-bit
   * count back together: low byte first, page byte last.
   */
  lemma DmaPortBytesRecombine(ports: DmaPorts, base: nat, count: nat)
    requires base < ISA_MAX_MEMORY_ADDRESS && count < 0x1_0000
    ensures var w := DmaPortWrites(ports, base, count);
      && w[0].port == w[1].port == ports.address && w[2].port == ports.page
      && w[3].port == w[4].port == ports.count
      && w[0].value + 0x100 * w[1].value + 0x1_0000 * w[2].value == base
      && w[3].value + 0x100 * w[4].value == count
  {
    var q := base / 0x100;
    assert base == 0x100 * q + base % 0x100;
    assert q / 0x100 == base / 0x1_0000 by {
      DivModUnique(base, 0x1_0000, q / 0x100, 0x100 * (q % 0x100) + base % 0x100);
    }
    assert q == 0x100 * (q / 0x100) + q % 0x100;
    assert base / 0x1_0000 < 0x100;
    assert count / 0x100 < 0x100;
  }

  /** A failing port write ends WriteDmaPort: nothing after it is written. */
  lemma WriteDmaPortStops(ports: DmaPorts, base: nat, count: nat, outcomes: seq<Status>, k: nat)
    requires k < 5 && WriteStatus(outcomes, k).IsError()
    requires forall j :: 0 <= j < k ==> !WriteStatus(outcomes, j).IsError()
    ensures WriteDmaPort(ports, base, count, outcomes).0 == WriteStatus(outcomes, k)
    ensures WriteDmaPort(ports, base, count, outcomes).1 == DmaPortWrites(ports, base, count)[..k + 1]
  {
    var writes := DmaPortWrites(ports, base, count);
    var r := RunWrites(writes, outcomes, 0);
    assert writes[0..] == writes;
    assert r.0.IsError();
    var m := |r.1|;
    assert WriteStatus(outcomes, m - 1).IsError();
    assert m - 1 >= k;
    assert m - 1 <= k;
  }

  // ---------------------------------------------------------------------
  // Attribute tests

  /** `ChannelAttributes & mask` is non-zero. */
  predicate HasAttr(attrs: nat, mask: nat)
  {
    And(attrs, mask) != 0
  }

  /**
   * The attribute rule for a slave channel, bit by bit: compatible speed
   * only, an 8-bit width on channels 0-3 and a 16-bit width on 4-7, and
   * exactly one of single and demand mode.
   */
  predicate SlaveAttributesOk(ch: nat, attrs: nat)
  {
    && Bit(attrs, 0)
    && !Bit(attrs, 1) && !Bit(attrs, 2) && !Bit(attrs, 3)
    && (if ch < 4 then Bit(attrs, 4) && !Bit(attrs, 5) else Bit(attrs, 5) && !Bit(attrs, 4))
    && (Bit(attrs, 6) <==> !Bit(attrs, 7))
  }

  /** Channel 4 is the cascade; channels past 7 do not exist. */
  predicate SlaveChannelOk(ch: nat)
  {
    ch != 4 && ch <= 7
  }

  lemma {:induction false} NonzeroHasBit(x: nat)
    ensures x != 0 <==> exists k: nat :: Bit(x, k)
  {
    if x == 0 {
      forall k: nat ensures !Bit(0, k) {
        BitZero(k);
      }
    } else if x % 2 == 1 {
      assert Bit(x, 0);
      assert exists k: nat :: Bit(x, k);
    } else {
      NonzeroHasBit(x / 2);
      var k: nat :| Bit(x / 2, k);
      assert Bit(x, k + 1);
      assert exists k': nat :: Bit(x, k');
    }
  }

  /** A value below 2^width has no bit at or above width. */
  lemma {:induction false} BitAbove(x: nat, width: nat, k: nat)
    requires x < Pow2(width) && k >= width
    ensures !Bit(x, k)
  {
    if x == 0 {
      BitZero(k);
    } else if k > 0 {
      assert width > 0;
      BitAbove(x / 2, width - 1, k - 1);
    }
  }

  lemma SmallPow2()
    ensures Pow2(0) == 1 && Pow2(1) == 2 && Pow2(2) == 4 && Pow2(3) == 8 && Pow2(4) == 0x10
    ensures Pow2(5) == 0x20 && Pow2(6) == 0x40 && Pow2(7) == 0x80 && Pow2(8) == 0x100
  {
    assert Pow2(1) == 2;
    assert Pow2(2) == 4;
    assert Pow2(3) == 8;
    assert Pow2(4) == 0x10;
    assert Pow2(5) == 0x20;
    assert Pow2(6) == 0x40;
    assert Pow2(7) == 0x80;
  }

  /** A single-bit attribute test reads that bit. */
  lemma AttrBit(attrs: nat, k: nat)
    requires k <= 8
    ensures HasAttr(attrs, Pow2(k)) <==> Bit(attrs, k)
  {
    AndPow2IsBit(attrs, k);
  }

  /** The combined SPEED_A | SPEED_B | SPEED_C test reads bits 1 to 3. */
  lemma {:induction false} SpeedMaskBits(attrs: nat)
    ensures HasAttr(attrs, 0x0E) <==> Bit(attrs, 1) || Bit(attrs, 2) || Bit(attrs, 3)
  {
    SmallPow2();
    forall k: nat ensures Bit(0x0E, k) <==> 1 <= k <= 3 {
      if k >= 4 {
        BitAbove(0x0E, 4, k);
      } else {
        assert Bit(0x0E, 1) && Bit(0x0E, 2) && Bit(0x0E, 3) && !Bit(0x0E, 0);
      }
    }
    forall k: nat ensures Bit(And(attrs, 0x0E), k) <==> Bit(attrs, k) && 1 <= k <= 3 {
      BitAnd(attrs, 0x0E, k);
    }
    NonzeroHasBit(And(attrs, 0x0E));
    if Bit(attrs, 1) {
      assert Bit(And(attrs, 0x0E), 1);
    } else if Bit(attrs, 2) {
      assert Bit(And(attrs, 0x0E), 2);
    } else if Bit(attrs, 3) {
      assert Bit(And(attrs, 0x0E), 3);
    }
  }

  /** The values the source tests against, as bit tests. */
  lemma AttrBits(attrs: nat)
    ensures HasAttr(attrs, ATTR_SPEED_COMPATIBLE) <==> Bit(attrs, 0)
    ensures HasAttr(attrs, ATTR_WIDTH_8) <==> Bit(attrs, 4)
    ensures HasAttr(attrs, ATTR_WIDTH_16) <==> Bit(attrs, 5)
    ensures HasAttr(attrs, ATTR_SINGLE_MODE) <==> Bit(attrs, 6)
    ensures HasAttr(attrs, ATTR_DEMAND_MODE) <==> Bit(attrs, 7)
    ensures HasAttr(attrs, ATTR_AUTO_INITIALIZE) <==> Bit(attrs, 8)
    ensures HasAttr(attrs, ATTR_SPEED_A + ATTR_SPEED_B + ATTR_SPEED_C) <==>
      Bit(attrs, 1) || Bit(attrs, 2) || Bit(attrs, 3)
  {
    SmallPow2();
    AttrBit(attrs, 0);
    AttrBit(attrs, 4);
    AttrBit(attrs, 5);
    AttrBit(attrs, 6);
    AttrBit(attrs, 7);
    AttrBit(attrs, 8);
    assert Pow2(8) * 2 == 0x200 by { assert Pow2(8) == 0x100; }
    SpeedMaskBits(attrs);
  }

  /**
   * The slave-channel checks of IsaIoMap_FullSupport, in the source's
   * order; every failure is an invalid parameter.
   */
  function SlaveCheck(ch: nat, attrs: nat): (r: Status)
    ensures r == Success || r == InvalidParameter
    ensures r == Success <==> SlaveChannelOk(ch) && SlaveAttributesOk(ch, attrs)
  {
    AttrBits(attrs);
    if ch == 4 || ch > 7 then InvalidParameter
    else if !HasAttr(attrs, ATTR_SPEED_COMPATIBLE) then InvalidParameter
    else if HasAttr(attrs, ATTR_SPEED_A + ATTR_SPEED_B + ATTR_SPEED_C) then InvalidParameter
    else if ch < 4 && (!HasAttr(attrs, ATTR_WIDTH_8) || HasAttr(attrs, ATTR_WIDTH_16)) then InvalidParameter
    else if ch >= 4 && (HasAttr(attrs, ATTR_WIDTH_8) || !HasAttr(attrs, ATTR_WIDTH_16)) then InvalidParameter
    else if HasAttr(attrs, ATTR_SINGLE_MODE) && HasAttr(attrs, ATTR_DEMAND_MODE) then InvalidParameter
    else if !HasAttr(attrs, ATTR_SINGLE_MODE) && !HasAttr(attrs, ATTR_DEMAND_MODE) then InvalidParameter
    else Success
  }

  // ---------------------------------------------------------------------
  // The mode byte

  /**
   * The channel mode register value: channel select in bits 0-1, transfer
   * direction in bits 2-3 (memory-to-I/O for a read), auto-initialize in
   * bit 4, and the mode select in bits 6-7 (demand is 0, single 0x40).
   */
  function ModeByte(ch: nat, read: bool, autoInit: bool, demand: bool, single: bool): (r: nat)
  {
    var m0 := Or(B_CHMODE_INCREMENT, ch % 4);
    var m1 := Or(m0, if read then V_CHMODE_MEM2IO else V_CHMODE_IO2MEM);
    var m2 := if autoInit then Or(m1, B_CHMODE_AE) else m1;
    var m3 := if demand then Or(m2, V_CHMODE_DEMAND) else m2;
    if single then Or(m3, V_CHMODE_SINGLE) else m3
  }

  /** The fields of a mode byte as the controller reads them. */
  datatype ModeFields = ModeFields(channel: nat, transfer: nat, autoInit: bool, increment: bool, modeSelect: nat)

  function DecodeMode(m: nat): ModeFields
  {
    ModeFields(m % 4, m / 4 % 4, m / 0x10 % 2 == 1, m / 0x20 % 2 == 0, m / 0x40 % 4)
  }

  /** The disjoint ORs that build the mode byte add up. */
  lemma ModeByteSum(ch: nat, read: bool, autoInit: bool, demand: bool, single: bool)
    ensures ModeByte(ch, read, autoInit, demand, single) ==
      ch % 4 + (if read then 8 else 4) + (if autoInit then 0x10 else 0) + (if single then 0x40 else 0)
  {
    SmallPow2();
    var c := ch % 4;
    var d := if read then 8 else 4;
    assert Or(0, c) == c;
    AndLowHigh(c, d, 2);
    OrDisjoint(c, d);
    var m1 := c + d;
    if autoInit {
      AndLowHigh(m1, 0x10, 4);
      OrDisjoint(m1, 0x10);
    }
    var m2 := m1 + (if autoInit then 0x10 else 0);
    assert Or(m2, 0) == m2;
    if single {
      AndLowHigh(m2, 0x40, 6);
      OrDisjoint(m2, 0x40);
    }
  }

  /**
   * Decoding the mode byte gives back what the map asked for: the channel
   * within its controller, write transfer (01) or read transfer (10),
   * auto-initialize, address increment, and single (01) or demand (00)
   * mode.
   */
  lemma ModeRoundTrip(ch: nat, read: bool, autoInit: bool, demand: bool, single: bool)
    ensures var m := ModeByte(ch, read, autoInit, demand, single);
      && m < 0x100
      && DecodeMode(m) == ModeFields(ch % 4, if read then 2 else 1, autoInit, true, if single then 1 else 0)
  {
    ModeByteSum(ch, read, autoInit, demand, single);
    var c := ch % 4;
    var d := if read then 2 else 1;
    var a := if autoInit then 1 else 0;
    var s := if single then 1 else 0;
    var m := c + 4 * d + 0x10 * a + 0x40 * s;
    DivModUnique(m, 4, d + 4 * a + 0x10 * s, c);
    DivModUnique(d + 4 * a + 0x10 * s, 4, a + 4 * s, d);
    DivModUnique(m, 0x10, a + 4 * s, c + 4 * d);
    DivModUnique(a + 4 * s, 2, 2 * s, a);
    DivModUnique(m, 0x20, 2 * s, c + 4 * d + 0x10 * a);
    DivModUnique(m, 0x40, s, c + 4 * d + 0x10 * a);
    assert m / 4 / 4 == m / 0x10;
  }

  // ---------------------------------------------------------------------
  // Transfer size and register values

  /**
   * A slave transfer may not cross a 64 KiB boundary: NumberOfBytes is
   * lowered to the bytes left in the device address's 64 KiB segment.
   * (`(UINT32)addr & 0xffff` keeps the low 16 bits, `addr % 0x1_0000`.)
   */
  function Clamp(bytes: nat, device: nat): (r: nat)
    ensures r <= bytes && r <= 0x1_0000 - device % 0x1_0000
  {
    var maxBytes := 0x1_0000 - device % 0x1_0000;
    if bytes > maxBytes then maxBytes else bytes
  }

  /**
   * The clamped transfer stays in its 64 KiB segment, and it is cut only
   * where the next byte would start a new segment.
   */
  lemma ClampStaysInSegment(bytes: nat, device: nat)
    ensures var n := Clamp(bytes, device);
      && (n >= 1 ==> (device + n - 1) / 0x1_0000 == device / 0x1_0000)
      && (n < bytes ==> (device + n) % 0x1_0000 == 0)
  {
    var n := Clamp(bytes, device);
    var q, o := device / 0x1_0000, device % 0x1_0000;
    if n >= 1 {
      DivModUnique(device + n - 1, 0x1_0000, q, o + n - 1);
    }
    if n < bytes {
      DivModUnique(device + n, 0x1_0000, q + 1, 0);
    }
  }

  /** `(UINTN)(NumberOfBytes - 1)`: wraps to the largest UINTN for zero bytes. */
  function LastIndex(bytes: nat): nat
    requires bytes < U64
  {
    (bytes + U64 - 1) % U64
  }

  /** Base and count registers of channels 0-3: byte address and bytes - 1. */
  function Registers8(device: nat, bytes: nat): (r: (nat, nat))
    requires bytes < U64
    ensures r.0 < U32 && r.1 < 0x1_0000
  {
    (device % U32, LastIndex(bytes) % 0x1_0000)
  }

  /**
   * Base and count registers of channels 4-7, which move 16-bit words:
   * `(addr & 0xff0000) | ((addr & 0xffff) >> 1)` and `(bytes - 1) >> 1`.
   * The two parts of the base share no bit, so the OR is their sum.
   */
  function Registers16(device: nat, bytes: nat): (r: (nat, nat))
    requires bytes < U64
    ensures r.0 < ISA_MAX_MEMORY_ADDRESS && r.1 < 0x1_0000
  {
    var d := device % U32;
    (d / 0x1_0000 % 0x100 * 0x1_0000 + d % 0x1_0000 / 2, LastIndex(bytes) / 2 % 0x1_0000)
  }

  /**
   * For a byte channel, the 8237 reads back the device address (page byte
   * over a 16-bit offset) and transfers count + 1 bytes.
   */
  lemma Registers8Decode(device: nat, bytes: nat)
    requires device < ISA_MAX_MEMORY_ADDRESS && 1 <= bytes <= 0x1_0000
    ensures var (base, count) := Registers8(device, bytes);
      && base / 0x1_0000 % 0x100 * 0x1_0000 + base % 0x1_0000 == device
      && count + 1 == bytes
  {
    var q := device / 0x1_0000;
    assert device == 0x1_0000 * q + device % 0x1_0000;
    assert q < 0x100;
  }

  /**
   * For a word channel, the page byte is bits 16-23 of the device address,
   * the 16-bit offset is the word index of the address within its 64 KiB
   * segment, and count + 1 words cover the requested bytes.
   */
  lemma Registers16Decode(device: nat, bytes: nat)
    requires device < ISA_MAX_MEMORY_ADDRESS && 1 <= bytes <= 0x1_0000
    ensures var (base, count) := Registers16(device, bytes);
      && base / 0x1_0000 == device / 0x1_0000
      && 2 * (base % 0x1_0000) + device % 2 == device % 0x1_0000
      && count + 1 == (bytes + 1) / 2
  {
    var q, o := device / 0x1_0000, device % 0x1_0000;
    assert device % U32 == device;
    assert q < 0x100 && q % 0x100 == q;
    var base := q * 0x1_0000 + o / 2;
    assert Registers16(device, bytes).0 == base;
    DivModUnique(base, 0x1_0000, q, o / 2);
    WordOffset(device, q, o);
    assert LastIndex(bytes) == bytes - 1;
    assert (bytes - 1) / 2 < 0x1_0000;
  }

  lemma WordOffset(device: nat, q: nat, o: nat)
    requires q == device / 0x1_0000 && o == device % 0x1_0000
    ensures 2 * (o / 2) + device % 2 == o
  {
    assert device == 0x1_0000 * q + o;
    DivModUnique(device, 2, q * 0x8000 + o / 2, o % 2);
  }

  /**
   * Mapping zero bytes programs the largest count a channel holds: the
   * UINTN subtraction wraps, and the 16-bit truncation keeps 0xFFFF.
   */
  lemma ZeroBytesProgramFullCount(device: nat)
    ensures Registers8(device, 0).1 == 0xFFFF && Registers16(device, 0).1 == 0xFFFF
  {
    assert LastIndex(0) == U64 - 1;
    DivModUnique(U64 - 1, 0x1_0000, U64 / 0x1_0000 - 1, 0xFFFF);
    DivModUnique((U64 - 1) / 2, 0x1_0000, U64 / 0x2_0000 - 1, 0xFFFF);
  }

  // ---------------------------------------------------------------------
  // Mapping

  /** The oracle answers of AllocatePool and AllocatePages. */
  datatype Allocation = Allocated(address: nat) | AllocationFailed(status: Status)
  {
    /** A failing allocator reports an error status. */
    predicate WellFormed()
    {
      AllocationFailed? ==> status.IsError()
    }
  }

  /** Where the device will transfer: the host buffer, or a bounce buffer below 16 MiB. */
  datatype Placement =
    | Direct(device: nat)
    | Bounced(device: nat)
    | PlacementFailed(status: Status)

  /**
   * The address step shared by both map variants: a buffer reaching past
   * 16 MiB cannot be used directly; a common buffer there is refused, any
   * other transfer gets a bounce buffer from the allocator.
   */
  function Place(host: nat, bytes: nat, commonBuffer: bool, poolOk: bool, pages: Allocation): (r: Placement)
    requires pages.WellFormed()
    ensures r.PlacementFailed? ==> r.status.IsError()
    ensures host + bytes <= ISA_MAX_MEMORY_ADDRESS <==> r == Direct(host)
    ensures r.Bounced? <==> host + bytes > ISA_MAX_MEMORY_ADDRESS && !commonBuffer && poolOk && pages.Allocated?
    ensures r.Bounced? ==> r.device == pages.address
    ensures r.PlacementFailed? && commonBuffer ==> r.status == Unsupported
  {
    if host + bytes <= ISA_MAX_MEMORY_ADDRESS then Direct(host)
    else if commonBuffer then PlacementFailed(Unsupported)
    else if !poolOk then PlacementFailed(OutOfResources)
    else match pages
      case Allocated(a) => Bounced(a)
      case AllocationFailed(s) => PlacementFailed(s)
  }

  /**
   * What IsaIoMap leaves behind: the status, *NumberOfBytes, *DeviceAddress
   * (when set), whether *Mapping points at map information, and the port
   * writes performed.
   */
  datatype MapResult = MapResult(status: Status, bytes: nat, device: Option<nat>, mapping: bool, writes: seq<PortWrite>)

  /** The port program for a slave transfer on channel `ch`. */
  function SlaveProgram(ch: nat, mode: nat, base: nat, count: nat): (r: seq<PortWrite>)
    requires ch < 8
    ensures |r| == 9
  {
    var mask := if ch < 4 then R_WRSMSK_CH0_3 else R_WRSMSK_CH4_7;
    var clear := if ch < 4 then R_CBPR_CH0_3 else R_CBPR_CH4_7;
    var modeReg := if ch < 4 then R_CHMODE_CH0_3 else R_CHMODE_CH4_7;
    [PortWrite(mask, Or(B_WRSMSK_CMS, ch % 4)), PortWrite(clear, Or(B_WRSMSK_CMS, ch % 4)), PortWrite(modeReg, mode)]
    + DmaPortWrites(DMA_REGISTERS[ch], base, count)
    + [PortWrite(mask, ch % 4)]
  }

  /** The first write masks the channel, the last one unmasks it. */
  lemma SlaveProgramMasks(ch: nat, mode: nat, base: nat, count: nat)
    requires ch < 8
    ensures var w := SlaveProgram(ch, mode, base, count);
      && w[0].port == w[8].port
      && w[0].value == B_WRSMSK_CMS + ch % 4
      && w[8].value == ch % 4
  {
    SmallPow2();
    AndLowHigh(ch % 4, 4, 2);
    AndComm(ch % 4, 4);
    OrDisjoint(4, ch % 4);
  }

  /** Programs a slave transfer once its device address is known. */
  function Program(ch: nat, mode: nat, device: nat, bytes: nat, mapping: bool, outcomes: seq<Status>): (r: MapResult)
    requires ch < 8 && bytes < U64
    ensures r.bytes == Clamp(bytes, device) && r.device == Some(device) && r.mapping == mapping
  {
    var n := Clamp(bytes, device);
    var regs := if ch < 4 then Registers8(device, n) else Registers16(device, n);
    var writes := SlaveProgram(ch, mode, regs.0, regs.1);
    var run := RunWrites(writes, outcomes, 0);
    MapResult(run.0, n, Some(device), mapping, run.1)
  }

  /**
   * IsaIoMap_FullSupport. `nullArgument` stands for a NULL This,
   * NumberOfBytes, DeviceAddress or Mapping pointer; a NULL HostAddress is
   * host 0.
   */
  function MapFull(nullArgument: bool, op: nat, ch: nat, attrs: nat, host: nat, bytes: nat,
                   poolOk: bool, pages: Allocation, outcomes: seq<Status>): (r: MapResult)
    requires bytes < U64 && pages.WellFormed()
    ensures nullArgument || host == 0 ==> r == MapResult(InvalidParameter, bytes, None, false, [])
    ensures op >= OP_MAXIMUM ==> r.status == InvalidParameter && r.writes == []
    ensures (op == OP_SLAVE_READ || op == OP_SLAVE_WRITE) && !(SlaveChannelOk(ch) && SlaveAttributesOk(ch, attrs))
      ==> r.status == InvalidParameter && r.writes == []
    ensures op < OP_SLAVE_READ ==> r.writes == [] && r.bytes <= bytes
    ensures r.writes != [] ==> r.bytes <= bytes && r.device.Some? && r.bytes <= 0x1_0000 - r.device.value % 0x1_0000
    ensures r.status == Success && op == OP_BUS_MASTER_COMMON_BUFFER ==> r.device == Some(host)
  {
    if nullArgument || host == 0 then MapResult(InvalidParameter, bytes, None, false, [])
    else if op >= OP_MAXIMUM then MapResult(InvalidParameter, bytes, None, false, [])
    else
      var slave := op == OP_SLAVE_READ || op == OP_SLAVE_WRITE;
      var read := op == OP_SLAVE_READ;
      if slave then
        if SlaveCheck(ch, attrs) != Success then MapResult(InvalidParameter, bytes, None, false, [])
        else SlaveTransfer(ch, FullMode(ch, read, attrs), host, bytes, poolOk, pages, outcomes)
      else match Place(host, bytes, op == OP_BUS_MASTER_COMMON_BUFFER, poolOk, pages)
        case PlacementFailed(s) => MapResult(s, if s == Unsupported && op == OP_BUS_MASTER_COMMON_BUFFER then bytes else 0, None, false, [])
        case Direct(d) => MapResult(Success, bytes, Some(d), false, [])
        case Bounced(d) => MapResult(Success, bytes, Some(d), true, [])
  }

  /** A slave transfer: place the buffer below 16 MiB, then program the channel. */
  function SlaveTransfer(ch: nat, mode: nat, host: nat, bytes: nat, poolOk: bool, pages: Allocation, outcomes: seq<Status>): (r: MapResult)
    requires ch < 8 && bytes < U64 && pages.WellFormed()
    ensures (r.writes != [] && r.device.Some?) || (r.bytes == 0 && r.status.IsError() && r.writes == [])
    ensures r.writes != [] ==> r.bytes <= bytes && r.device.Some? && r.bytes <= 0x1_0000 - r.device.value % 0x1_0000
  {
    match Place(host, bytes, false, poolOk, pages)
    case PlacementFailed(s) => MapResult(s, 0, None, false, [])
    case Direct(d) => Program(ch, mode, d, bytes, false, outcomes)
    case Bounced(d) => Program(ch, mode, d, bytes, true, outcomes)
  }

  /** The mode byte of the full variant, from the channel attributes. */
  function FullMode(ch: nat, read: bool, attrs: nat): nat
  {
    ModeByte(ch, read, HasAttr(attrs, ATTR_AUTO_INITIALIZE), HasAttr(attrs, ATTR_DEMAND_MODE), HasAttr(attrs, ATTR_SINGLE_MODE))
  }

  /**
   * IsaIoMap_OnlySupportSlaveReadWrite: slave reads and writes on channels
   * 0-3 only; the channel attributes are not looked at and the channel is
   * always put in single mode.
   */
  function MapSlaveOnly(nullArgument: bool, op: nat, ch: nat, attrs: nat, host: nat, bytes: nat,
                        poolOk: bool, pages: Allocation, outcomes: seq<Status>): (r: MapResult)
    requires bytes < U64 && pages.WellFormed()
    ensures !((op == OP_SLAVE_READ || op == OP_SLAVE_WRITE) && ch < 4) ==>
      r == MapResult(InvalidParameter, bytes, None, false, [])
    ensures !nullArgument && host != 0 && (op == OP_SLAVE_READ || op == OP_SLAVE_WRITE) && ch < 4 ==>
      (r.writes != [] && r.device.Some?) || (r.bytes == 0 && r.status.IsError())
    ensures r.writes != [] ==> r.bytes <= bytes && r.device.Some? && r.bytes <= 0x1_0000 - r.device.value % 0x1_0000
  {
    if nullArgument || host == 0 then MapResult(InvalidParameter, bytes, None, false, [])
    else if !(op == OP_SLAVE_READ || op == OP_SLAVE_WRITE) then MapResult(InvalidParameter, bytes, None, false, [])
    else if ch >= 4 then MapResult(InvalidParameter, bytes, None, false, [])
    else
      SlaveTransfer(ch, ModeByte(ch, op == OP_SLAVE_READ, false, false, true), host, bytes, poolOk, pages, outcomes)
  }

  /**
   * On the requests it accepts, the slave-only variant behaves as the full
   * one would with compatible speed, an 8-bit width and single mode,
   * whatever attributes the caller passed.
   */
  lemma SlaveOnlyIsFullWithDefaults(nullArgument: bool, op: nat, ch: nat, attrs: nat, host: nat, bytes: nat,
                                    poolOk: bool, pages: Allocation, outcomes: seq<Status>)
    requires bytes < U64 && pages.WellFormed()
    requires (op == OP_SLAVE_READ || op == OP_SLAVE_WRITE) && ch < 4
    ensures MapSlaveOnly(nullArgument, op, ch, attrs, host, bytes, poolOk, pages, outcomes)
         == MapFull(nullArgument, op, ch, ATTR_SPEED_COMPATIBLE + ATTR_WIDTH_8 + ATTR_SINGLE_MODE, host, bytes, poolOk, pages, outcomes)
  {
    DefaultsAccepted(ch, op == OP_SLAVE_READ);
  }

  /** Compatible speed, an 8-bit width and single mode pass the slave check and select single mode. */
  lemma DefaultsAccepted(ch: nat, read: bool)
    requires ch < 4
    ensures var defaults := ATTR_SPEED_COMPATIBLE + ATTR_WIDTH_8 + ATTR_SINGLE_MODE;
      SlaveCheck(ch, defaults) == Success && FullMode(ch, read, defaults) == ModeByte(ch, read, false, false, true)
  {
    var defaults := ATTR_SPEED_COMPATIBLE + ATTR_WIDTH_8 + ATTR_SINGLE_MODE;
    SmallPow2();
    assert defaults == Pow2(0) + Pow2(4) + Pow2(6);
    assert Bit(defaults, 0) && Bit(defaults, 4) && Bit(defaults, 6);
    assert !Bit(defaults, 1) && !Bit(defaults, 2) && !Bit(defaults, 3) && !Bit(defaults, 5) && !Bit(defaults, 7);
    assert !Bit(defaults, 8) by {
      assert defaults / 2 / 2 / 2 / 2 / 2 / 2 / 2 / 2 == 0;
      BitZero(0);
    }
    AttrBits(defaults);
  }

  /**
   * IsaIoMap: refused when the platform has no ISA DMA; otherwise the
   * platform's choice of variant.
   */
  function Map(dmaSupported: bool, slaveOnly: bool, nullArgument: bool, op: nat, ch: nat, attrs: nat, host: nat, bytes: nat,
               poolOk: bool, pages: Allocation, outcomes: seq<Status>): (r: MapResult)
    requires bytes < U64 && pages.WellFormed()
    ensures !dmaSupported ==> r.status == Unsupported && r.writes == []
    ensures dmaSupported && slaveOnly ==> r == MapSlaveOnly(nullArgument, op, ch, attrs, host, bytes, poolOk, pages, outcomes)
    ensures dmaSupported && !slaveOnly ==> r == MapFull(nullArgument, op, ch, attrs, host, bytes, poolOk, pages, outcomes)
  {
    if !dmaSupported then MapResult(Unsupported, bytes, None, false, [])
    else if slaveOnly then MapSlaveOnly(nullArgument, op, ch, attrs, host, bytes, poolOk, pages, outcomes)
    else MapFull(nullArgument, op, ch, attrs, host, bytes, poolOk, pages, outcomes)
  }

  /**
   * A successful slave map on a word channel programs the controller with
   * the register values for 16-bit transfers, writes all nine bytes, and
   * leaves NumberOfBytes inside the device address's 64 KiB segment.
   */
  lemma {:induction false} SlaveMapProgramsAll(nullArgument: bool, op: nat, ch: nat, attrs: nat, host: nat, bytes: nat,
                                               poolOk: bool, pages: Allocation, outcomes: seq<Status>)
    requires bytes < U64 && pages.WellFormed()
    requires (op == OP_SLAVE_READ || op == OP_SLAVE_WRITE) && 4 < ch < 8
    requires MapFull(nullArgument, op, ch, attrs, host, bytes, poolOk, pages, outcomes).status == Success
    ensures var r := MapFull(nullArgument, op, ch, attrs, host, bytes, poolOk, pages, outcomes);
      && r.device.Some?
      && r.bytes == Clamp(bytes, r.device.value)
      && var regs := Registers16(r.device.value, r.bytes);
         r.writes == SlaveProgram(ch, FullMode(ch, op == OP_SLAVE_READ, attrs), regs.0, regs.1)
  {
    var r := MapFull(nullArgument, op, ch, attrs, host, bytes, poolOk, pages, outcomes);
    var p := Place(host, bytes, false, poolOk, pages);
    assert !p.PlacementFailed?;
    var regs := Registers16(p.device, Clamp(bytes, p.device));
    var writes := SlaveProgram(ch, FullMode(ch, op == OP_SLAVE_READ, attrs), regs.0, regs.1);
    assert writes[0..] == writes;
  }

  /**
   * A successful slave map on a byte channel programs the controller with
   * the register values for 8-bit transfers: base = device address and
   * count = bytes - 1, in the nine writes of the slave program.
   */
  lemma {:induction false} SlaveMapProgramsAllBytes(nullArgument: bool, op: nat, ch: nat, attrs: nat, host: nat, bytes: nat,
                                                    poolOk: bool, pages: Allocation, outcomes: seq<Status>)
    requires bytes < U64 && pages.WellFormed()
    requires (op == OP_SLAVE_READ || op == OP_SLAVE_WRITE) && ch < 4
    requires MapFull(nullArgument, op, ch, attrs, host, bytes, poolOk, pages, outcomes).status == Success
    ensures var r := MapFull(nullArgument, op, ch, attrs, host, bytes, poolOk, pages, outcomes);
      && r.device.Some?
      && r.bytes == Clamp(bytes, r.device.value)
      && var regs := Registers8(r.device.value, r.bytes);
         r.writes == SlaveProgram(ch, FullMode(ch, op == OP_SLAVE_READ, attrs), regs.0, regs.1)
  {
    var p := Place(host, bytes, false, poolOk, pages);
    assert !p.PlacementFailed?;
    var regs := Registers8(p.device, Clamp(bytes, p.device));
    var writes := SlaveProgram(ch, FullMode(ch, op == OP_SLAVE_READ, attrs), regs.0, regs.1);
    assert writes[0..] == writes;
  }

  /**
   * The slave-only variant, on a channel it accepts, writes the same nine
   * bytes in single mode: base = device address and count = bytes - 1.
   */
  lemma SlaveOnlyProgramsAll(nullArgument: bool, op: nat, ch: nat, attrs: nat, host: nat, bytes: nat,
                             poolOk: bool, pages: Allocation, outcomes: seq<Status>)
    requires bytes < U64 && pages.WellFormed()
    requires MapSlaveOnly(nullArgument, op, ch, attrs, host, bytes, poolOk, pages, outcomes).status == Success
    ensures (op == OP_SLAVE_READ || op == OP_SLAVE_WRITE) && ch < 4
    ensures var r := MapSlaveOnly(nullArgument, op, ch, attrs, host, bytes, poolOk, pages, outcomes);
      && r.device.Some?
      && r.bytes == Clamp(bytes, r.device.value)
      && var regs := Registers8(r.device.value, r.bytes);
         r.writes == SlaveProgram(ch, ModeByte(ch, op == OP_SLAVE_READ, false, false, true), regs.0, regs.1)
  {
    var defaults := ATTR_SPEED_COMPATIBLE + ATTR_WIDTH_8 + ATTR_SINGLE_MODE;
    SlaveOnlyIsFullWithDefaults(nullArgument, op, ch, attrs, host, bytes, poolOk, pages, outcomes);
    SlaveMapProgramsAllBytes(nullArgument, op, ch, defaults, host, bytes, poolOk, pages, outcomes);
    DefaultsAccepted(ch, op == OP_SLAVE_READ);
  }

  /**
   * When the allocator keeps a bounce buffer below 16 MiB, as the
   * AllocateMaxAddress request of IsaIoMap asks it to, a successful
   * byte-channel map of at least one byte programs registers from which
   * the 8237 reads back the device address and transfers exactly
   * NumberOfBytes bytes.
   */
  lemma SlaveMapReadsBack(nullArgument: bool, op: nat, ch: nat, attrs: nat, host: nat, bytes: nat,
                          poolOk: bool, pages: Allocation, outcomes: seq<Status>)
    requires 1 <= bytes < U64 && pages.WellFormed()
    requires pages.Allocated? ==> pages.address < ISA_MAX_MEMORY_ADDRESS
    requires (op == OP_SLAVE_READ || op == OP_SLAVE_WRITE) && ch < 4
    requires MapFull(nullArgument, op, ch, attrs, host, bytes, poolOk, pages, outcomes).status == Success
    ensures var r := MapFull(nullArgument, op, ch, attrs, host, bytes, poolOk, pages, outcomes);
      && r.device.Some? && r.device.value < ISA_MAX_MEMORY_ADDRESS && 1 <= r.bytes
      && var (base, count) := Registers8(r.device.value, r.bytes);
         && base / 0x1_0000 % 0x100 * 0x1_0000 + base % 0x1_0000 == r.device.value
         && count + 1 == r.bytes
  {
    var r := MapFull(nullArgument, op, ch, attrs, host, bytes, poolOk, pages, outcomes);
    SlaveMapProgramsAllBytes(nullArgument, op, ch, attrs, host, bytes, poolOk, pages, outcomes);
    var d := r.device.value;
    assert d < ISA_MAX_MEMORY_ADDRESS;
    assert 1 <= r.bytes <= 0x1_0000;
    Registers8Decode(d, r.bytes);
  }

  // ---------------------------------------------------------------------
  // Common buffers

  /** The AllocatePages call IsaIoAllocateBuffer makes. */
  datatype PageRequest = PageRequest(allocType: nat, memoryType: nat, pages: nat, address: nat)

  /** Status, the address stored in *HostAddress, and the allocator call made. */
  datatype BufferResult = BufferResult(status: Status, host: Option<nat>, request: Option<PageRequest>)

  /** Some set bit of the attributes is neither write-combine nor cached. */
  ghost predicate StrayAttribute(attrs: nat)
  {
    exists k: nat :: Bit(attrs, k) && k != 7 && k != 11
  }

  /**
   * IsaIoAllocateBuffer. `hostIn` is *HostAddress on entry (NULL pointer:
   * None); `allocator` answers AllocatePages.
   */
  function AllocateBuffer(dmaSupported: bool, slaveOnly: bool, allocType: nat, memoryType: nat, pages: nat,
                          hostIn: Option<nat>, attrs: nat, allocator: Allocation): (r: BufferResult)
    requires attrs < U64 && allocator.WellFormed()
    ensures !dmaSupported || slaveOnly ==> r.status == Unsupported && r.request == None
    ensures r.request.Some? ==>
      && allocType < MAX_ALLOCATE_TYPE && hostIn.Some?
      && (memoryType == EFI_BOOT_SERVICES_DATA || memoryType == EFI_RUNTIME_SERVICES_DATA)
      && !StrayAttribute(attrs)
      && r.request.value.allocType != ALLOCATE_ANY_PAGES
      && r.request.value.address < ISA_MAX_MEMORY_ADDRESS
      && r.request.value.memoryType == memoryType && r.request.value.pages == pages
    ensures r.status == Success ==> r.request.Some? && allocator.Allocated? && r.host == Some(allocator.address)
    ensures r.host.Some? ==> r.status == Success
  {
    var forbidden := Not(MEMORY_ATTRIBUTES, 64);
    if !dmaSupported || slaveOnly then BufferResult(Unsupported, None, None)
    else if hostIn.None? then BufferResult(InvalidParameter, None, None)
    else if allocType >= MAX_ALLOCATE_TYPE then BufferResult(InvalidParameter, None, None)
    else if memoryType != EFI_BOOT_SERVICES_DATA && memoryType != EFI_RUNTIME_SERVICES_DATA then BufferResult(InvalidParameter, None, None)
    else if HasAttr(attrs, forbidden) then BufferResult(Unsupported, None, None)
    else if allocType == ALLOCATE_ADDRESS && hostIn.value >= ISA_MAX_MEMORY_ADDRESS then BufferResult(Unsupported, None, None)
    else
      var address := if allocType == ALLOCATE_ADDRESS then hostIn.value else ISA_MAX_MEMORY_ADDRESS - 1;
      var t := if allocType == ALLOCATE_ANY_PAGES then ALLOCATE_MAX_ADDRESS else allocType;
      var request := PageRequest(t, memoryType, pages, address);
      assert !StrayAttribute(attrs) by { NoStrayWhenMasked(attrs); }
      match allocator
      case Allocated(a) => BufferResult(Success, Some(a), Some(request))
      case AllocationFailed(s) => BufferResult(s, None, Some(request))
  }

  /**
   * `Attributes & ~(WRITE_COMBINE | CACHED)` is non-zero exactly when some
   * attribute bit other than write-combine and cached is set.
   */
  lemma {:induction false} StrayAttributeIff(attrs: nat)
    requires attrs < U64
    ensures HasAttr(attrs, Not(MEMORY_ATTRIBUTES, 64)) <==> StrayAttribute(attrs)
  {
    var allowed := MEMORY_ATTRIBUTES;
    Pow2Values();
    assert Fits(allowed, 64);
    assert Fits(attrs, 64);
    var forbidden := Not(allowed, 64);
    AllowedBits();
    forall k: nat ensures Bit(And(attrs, forbidden), k) <==> Bit(attrs, k) && k != 7 && k != 11 {
      BitAnd(attrs, forbidden, k);
      if k < 64 {
        BitNot(allowed, 64, k);
      } else {
        BitAbove(attrs, 64, k);
      }
    }
    NonzeroHasBit(And(attrs, forbidden));
    if StrayAttribute(attrs) {
      var k: nat :| Bit(attrs, k) && k != 7 && k != 11;
      assert Bit(And(attrs, forbidden), k);
      assert exists k': nat :: Bit(And(attrs, forbidden), k');
      assert HasAttr(attrs, forbidden);
    }
    if HasAttr(attrs, forbidden) {
      var k: nat :| Bit(And(attrs, forbidden), k);
      assert Bit(attrs, k) && k != 7 && k != 11;
      assert StrayAttribute(attrs);
    }
  }

  lemma NoStrayWhenMasked(attrs: nat)
    requires attrs < U64
    requires !HasAttr(attrs, Not(MEMORY_ATTRIBUTES, 64))
    ensures !StrayAttribute(attrs)
  {
    StrayAttributeIff(attrs);
  }

  /** 0x880 has exactly bits 7 and 11 set. */
  lemma AllowedBits()
    ensures forall k: nat :: Bit(MEMORY_ATTRIBUTES, k) <==> k == 7 || k == 11
  {
    forall k: nat ensures Bit(0x880, k) <==> k == 7 || k == 11 {
      if k >= 12 {
        assert Pow2(12) == 0x1000 by { Pow2Values(); Pow2Add(8, 4); SmallPow2(); }
        BitAbove(0x880, 12, k);
      } else if k == 0 {
      } else if k == 1 {
      } else if k == 2 {
      } else if k == 3 {
      } else if k == 4 {
      } else if k == 5 {
      } else if k == 6 {
      } else if k == 7 {
      } else if k == 8 {
      } else if k == 9 {
      } else if k == 10 {
      } else {
        assert k == 11;
      }
    }
  }
}
