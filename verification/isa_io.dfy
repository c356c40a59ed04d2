/**
 * ISA I/O access validation: IsaIoVerifyAccess.
 *
 * Every memory or port access through the ISA I/O protocol is checked
 * against the device's ACPI resource list before it reaches the bus. The
 * access covers Count elements of 1, 2, 4 or 8 bytes starting at Offset; it
 * is allowed when one resource item of the matching kind holds all of it.
 * When none does, the answer distinguishes an access that starts inside a
 * resource but runs past it (invalid parameter) from one that misses every
 * resource (unsupported).
 *
 * Offset and the resource ranges are UINT32; Count and the end-of-access
 * arithmetic are UINTN, modelled as 64 bits with explicit wrap-around.
 */
module IsaIo {
  import opened Efi

  /**
   * EFI_ISA_IO_PROTOCOL_WIDTH: Uint8 0, Uint16 1, Uint32 2, Reserved 3,
   * FifoUint8 4 .. FifoReserved 7, FillUint8 8 .. FillReserved 11,
   * Maximum 12.
   */
  const WIDTH_FIFO_UINT8: nat := 4
  const WIDTH_FIFO_RESERVED: nat := 7
  const WIDTH_MAXIMUM: nat := 12

  /** EFI_ISA_ACPI_RESOURCE_TYPE */
  datatype ResourceType = EndOfList | Io | Memory | Dma | Interrupt

  datatype ResourceItem = ResourceItem(kind: ResourceType, startRange: nat, endRange: nat)

  /** ISA_ACCESS_TYPE */
  datatype AccessType = AccessMem | AccessIo

  /** The three reserved widths, and everything at or past Maximum, are refused. */
  predicate ValidWidth(width: nat)
  {
    width < WIDTH_MAXIMUM && width % 4 != 3
  }

  /** An item the walk looks at for this kind of access. */
  predicate Matches(item: ResourceItem, access: AccessType)
  {
    (access == AccessMem && item.kind == Memory) || (access == AccessIo && item.kind == Io)
  }

  /** Bytes per element: 1 << (Width & 0x03). */
  function ElementSize(width: nat): (r: nat)
    ensures r == 1 || r == 2 || r == 4 || r == 8
    ensures width % 4 == 0 ==> r == 1
  {
    if width % 4 == 0 then 1 else if width % 4 == 1 then 2 else if width % 4 == 2 then 4 else 8
  }

  /** FIFO widths transfer a single element whatever Count says. */
  function EffectiveCount(width: nat, count: nat): (r: nat)
    ensures WIDTH_FIFO_UINT8 <= width <= WIDTH_FIFO_RESERVED ==> r == 1
    ensures !(WIDTH_FIFO_UINT8 <= width <= WIDTH_FIFO_RESERVED) ==> r == count
  {
    if WIDTH_FIFO_UINT8 <= width <= WIDTH_FIFO_RESERVED then 1 else count
  }

  /**
   * `(*Offset + Count * (1 << Width)) - 1` in UINTN: the address of the
   * last byte, wrapping below zero when the access is empty at offset 0.
   */
  function LastByte(offset: nat, count: nat, width: nat): (r: nat)
    ensures r < U64
  {
    (offset + count * ElementSize(width) + U64 - 1) % U64
  }

  /** The item holds the access from `offset` to `last`. */
  predicate Holds(item: ResourceItem, offset: nat, last: nat)
  {
    offset >= item.startRange && last <= item.endRange
  }

  /** The item holds the first byte. */
  predicate Starts(item: ResourceItem, offset: nat)
  {
    item.startRange <= offset <= item.endRange
  }

  /** The items before the first EndOfList entry: the ones the walk visits. */
  function Listed(items: seq<ResourceItem>): (r: seq<ResourceItem>)
    ensures |r| <= |items| && r == items[..|r|]
    ensures forall i :: 0 <= i < |r| ==> r[i].kind != EndOfList
    ensures |r| < |items| ==> items[|r|].kind == EndOfList
  {
    if |items| == 0 || items[0].kind == EndOfList then []
    else [items[0]] + Listed(items[1..])
  }

  predicate SomeHolds(items: seq<ResourceItem>, access: AccessType, offset: nat, last: nat)
  {
    exists i :: 0 <= i < |items| && Matches(items[i], access) && Holds(items[i], offset, last)
  }

  predicate SomeStarts(items: seq<ResourceItem>, access: AccessType, offset: nat)
  {
    exists i :: 0 <= i < |items| && Matches(items[i], access) && Starts(items[i], offset)
  }

  /**
   * The loop over the listed items from `k` on, with `status` the value
   * carried so far: the first holding item ends the walk with success, an
   * item that only holds the first byte turns the carried status into
   * invalid parameter.
   */
  function Walk(items: seq<ResourceItem>, k: nat, access: AccessType, offset: nat, last: nat, status: Status): (r: Status)
    requires k <= |items|
    requires status == Unsupported || status == InvalidParameter
    ensures r == Success <==> SomeHolds(items[k..], access, offset, last)
    ensures r == InvalidParameter <==>
      !SomeHolds(items[k..], access, offset, last) && (status == InvalidParameter || SomeStarts(items[k..], access, offset))
    ensures r == Success || r == InvalidParameter || r == Unsupported
    decreases |items| - k
  {
    if k == |items| then status
    else
      var item := items[k];
      assert items[k..] == [item] + items[k + 1..];
      if Matches(item, access) && Holds(item, offset, last) then Success
      else if Matches(item, access) && Starts(item, offset) then
        Walk(items, k + 1, access, offset, last, InvalidParameter)
      else
        Walk(items, k + 1, access, offset, last, status)
  }

  /**
   * IsaIoVerifyAccess. `offset` is the UINT32 *Offset and `count` the UINTN
   * Count.
   */
  function VerifyAccess(items: seq<ResourceItem>, access: AccessType, width: nat, count: nat, offset: nat): (r: Status)
    requires offset < U32 && count < U64
    ensures !ValidWidth(width) ==> r == InvalidParameter
    ensures ValidWidth(width) ==>
      var last := LastByte(offset, EffectiveCount(width, count), width);
      && (r == Success <==> SomeHolds(Listed(items), access, offset, last))
      && (r == InvalidParameter <==>
            !SomeHolds(Listed(items), access, offset, last) && SomeStarts(Listed(items), access, offset))
      && (r == Unsupported <==>
            !SomeHolds(Listed(items), access, offset, last) && !SomeStarts(Listed(items), access, offset))
  {
    if !ValidWidth(width) then InvalidParameter
    else
      var listed := Listed(items);
      assert listed[0..] == listed;
      Walk(listed, 0, access, offset, LastByte(offset, EffectiveCount(width, count), width), Unsupported)
  }

  // ---------------------------------------------------------------------
  // What the check means

  /** Every byte in [from, to) lies in the item's range. */
  predicate ContainsAll(item: ResourceItem, from: nat, to: nat)
  {
    forall b :: from <= b < to ==> InRange(item, b)
  }

  predicate InRange(item: ResourceItem, b: nat)
  {
    item.startRange <= b <= item.endRange
  }

  /**
   * For a non-empty access that does not run off the end of the address
   * space, the wrapped last-byte expression is the true last byte, so an
   * item holds the access exactly when it contains every byte of it.
   */
  lemma HoldsMeansContains(item: ResourceItem, offset: nat, count: nat, width: nat)
    requires count >= 1 && offset + count * ElementSize(width) <= U64
    ensures LastByte(offset, count, width) == offset + count * ElementSize(width) - 1
    ensures Holds(item, offset, LastByte(offset, count, width)) <==>
      ContainsAll(item, offset, offset + count * ElementSize(width))
  {
    var n := offset + count * ElementSize(width);
    assert n >= 1 by {
      assert count * ElementSize(width) >= 1 * ElementSize(width) >= 1;
    }
    assert (n + U64 - 1) % U64 == n - 1 by {
      assert 0 <= n - 1 < U64;
    }
    assert LastByte(offset, count, width) == n - 1;
    if Holds(item, offset, n - 1) {
      assert ContainsAll(item, offset, n);
    } else {
      var b := if offset < item.startRange then offset else n - 1;
      assert offset <= b < n && !InRange(item, b);
    }
  }

  /**
   * VerifyAccess succeeds, for a valid width and a non-empty access that
   * stays inside the 64-bit address space, exactly when one listed item of
   * the access's kind contains every byte of it.
   */
  lemma {:induction false} AccessAllowedIff(items: seq<ResourceItem>, access: AccessType, width: nat, count: nat, offset: nat)
    requires offset < U32 && count < U64 && ValidWidth(width)
    requires EffectiveCount(width, count) >= 1
    requires offset + EffectiveCount(width, count) * ElementSize(width) <= U64
    ensures VerifyAccess(items, access, width, count, offset) == Success <==>
      exists i :: 0 <= i < |Listed(items)| && Matches(Listed(items)[i], access) &&
        ContainsAll(Listed(items)[i], offset, offset + EffectiveCount(width, count) * ElementSize(width))
  {
    var listed := Listed(items);
    var n := EffectiveCount(width, count);
    var last := LastByte(offset, n, width);
    var to := offset + n * ElementSize(width);
    forall i | 0 <= i < |listed|
      ensures Holds(listed[i], offset, last) <==> ContainsAll(listed[i], offset, to)
    {
      HoldsMeansContains(listed[i], offset, n, width);
    }
  }

  /**
   * The source's end-of-access expression on an empty access at offset 0
   * wraps to the largest UINTN, so no UINT32 range can hold it: such an
   * access is refused even when a resource starts at 0.
   */
  lemma EmptyAccessAtZeroRefused(items: seq<ResourceItem>, access: AccessType, width: nat)
    requires ValidWidth(width) && !(WIDTH_FIFO_UINT8 <= width <= WIDTH_FIFO_RESERVED)
    requires forall i :: 0 <= i < |items| ==> items[i].endRange < U32
    ensures VerifyAccess(items, access, width, 0, 0) != Success
  {
    var last := LastByte(0, 0, width);
    assert last == U64 - 1;
    var listed := Listed(items);
    forall i | 0 <= i < |listed|
      ensures !Holds(listed[i], 0, last)
    {
      assert listed[i] == items[i];
    }
  }

  /** A FIFO width looks at one element, whatever Count the caller passed. */
  lemma FifoIgnoresCount(items: seq<ResourceItem>, access: AccessType, width: nat, count: nat, offset: nat)
    requires offset < U32 && count < U64
    requires WIDTH_FIFO_UINT8 <= width < WIDTH_FIFO_RESERVED
    ensures VerifyAccess(items, access, width, count, offset) == VerifyAccess(items, access, width, 1, offset)
  {
  }

  /** A fill width checks the same range as the plain width it repeats. */
  lemma FillIsPlainWidth(items: seq<ResourceItem>, access: AccessType, width: nat, count: nat, offset: nat)
    requires offset < U32 && count < U64
    requires 8 <= width < 11
    ensures VerifyAccess(items, access, width, count, offset) == VerifyAccess(items, access, width - 8, count, offset)
  {
  }

  /** Items past the end-of-list marker are never consulted. */
  lemma {:induction false} TailIgnored(items: seq<ResourceItem>, rest: seq<ResourceItem>, access: AccessType, width: nat, count: nat, offset: nat)
    requires offset < U32 && count < U64
    requires |items| > 0 && items[|items| - 1].kind == EndOfList
    ensures VerifyAccess(items + rest, access, width, count, offset) == VerifyAccess(items, access, width, count, offset)
  {
    ListedStopsAtEnd(items, rest);
  }

  lemma {:induction false} ListedStopsAtEnd(items: seq<ResourceItem>, rest: seq<ResourceItem>)
    requires |items| > 0 && items[|items| - 1].kind == EndOfList
    ensures Listed(items + rest) == Listed(items)
  {
    if items[0].kind == EndOfList {
    } else {
      assert (items + rest)[1..] == items[1..] + rest;
      ListedStopsAtEnd(items[1..], rest);
    }
  }
}
