/**
 * The on-flash layout of the PEI variable store: store and variable
 * headers read out of bytes, the size and padding arithmetic that locates
 * a variable's name, data and successor, and the store-status test.
 *
 * Memory is a window of bytes at a base address; bytes outside it read as
 * 0xFF, as erased flash does. Multi-byte fields are little-endian. Pointer
 * arithmetic is on unbounded naturals: the store sits below 4 GiB and its
 * sizes are 32-bit, so the UINTN sums of the source do not wrap.
 *
 * The alignment constants are those of the IPF build, whose index-table
 * worker is part of this model: names and data are padded to 8 bytes,
 * headers to 4.
 */
module VarFormat {
  import opened Bits
  import opened Efi

  const VARIABLE_DATA: nat := 0x55AA
  const VAR_ADDED: nat := 0x3F
  const VARIABLE_STORE_SIGNATURE: nat := 0x5353_5624
  const VARIABLE_STORE_FORMATTED: nat := 0x5A
  const VARIABLE_STORE_HEALTHY: nat := 0xFE

  /** sizeof (VARIABLE_HEADER) and sizeof (VARIABLE_STORE_HEADER) */
  const HEADER_SIZE: nat := 32
  const STORE_HEADER_SIZE: nat := 16

  const ALIGNMENT: nat := 8
  const HEADER_ALIGNMENT: nat := 4

  const ALL_ONES_8: nat := 0xFF
  const ALL_ONES_32: nat := 0xFFFF_FFFF

  datatype Memory = Memory(base: nat, bytes: seq<Byte>)

  function ByteAt(m: Memory, a: nat): Byte
  {
    if m.base <= a < m.base + |m.bytes| then m.bytes[a - m.base] else 0xFF
  }

  /** The `n`-byte little-endian value at `a`. */
  function LeAt(m: Memory, a: nat, n: nat): (r: nat)
    decreases n
  {
    if n == 0 then 0 else ByteAt(m, a) + 0x100 * LeAt(m, a + 1, n - 1)
  }

  function U16At(m: Memory, a: nat): (r: nat)
    ensures r < 0x1_0000
  {
    LeAt(m, a, 2)
  }

  function U32At(m: Memory, a: nat): (r: nat)
    ensures r < 0x1_0000_0000
  {
    LeAt(m, a, 4)
  }

  /** VARIABLE_HEADER: the GUID is held as the four dwords the lookup compares. */
  datatype Header = Header(startId: nat, state: nat, attributes: nat, nameSize: nat, dataSize: nat, guid: seq<nat>)

  /** The fields of the header at `a`: StartId at +0, State at +2, Attributes at +4, NameSize at +8, DataSize at +12, VendorGuid at +16. */
  function StartIdAt(m: Memory, a: nat): nat { U16At(m, a) }
  function StateAt(m: Memory, a: nat): nat { ByteAt(m, a + 2) }
  function AttributesAt(m: Memory, a: nat): nat { U32At(m, a + 4) }
  function NameSizeAt(m: Memory, a: nat): nat { U32At(m, a + 8) }
  function DataSizeAt(m: Memory, a: nat): nat { U32At(m, a + 12) }
  function GuidAt(m: Memory, a: nat): seq<nat>
  {
    [U32At(m, a + 16), U32At(m, a + 20), U32At(m, a + 24), U32At(m, a + 28)]
  }

  function ReadHeader(m: Memory, a: nat): (h: Header)
    ensures |h.guid| == 4
  {
    Header(StartIdAt(m, a), StateAt(m, a), AttributesAt(m, a), NameSizeAt(m, a), DataSizeAt(m, a), GuidAt(m, a))
  }

  /** The fields of a header fit their C types. */
  predicate HeaderFits(h: Header)
  {
    h.startId < 0x1_0000 && h.state < 0x100 && h.attributes < 0x1_0000_0000
    && h.nameSize < 0x1_0000_0000 && h.dataSize < 0x1_0000_0000
    && |h.guid| == 4 && forall i :: 0 <= i < 4 ==> h.guid[i] < 0x1_0000_0000
  }

  function Le16(x: nat): (r: seq<Byte>)
    requires x < 0x1_0000
    ensures |r| == 2
  {
    [x % 0x100, x / 0x100]
  }

  function Le32(x: nat): (r: seq<Byte>)
    requires x < 0x1_0000_0000
    ensures |r| == 4
  {
    Le16(x % 0x1_0000) + Le16(x / 0x1_0000)
  }

  /** The 32 bytes a header is stored as. */
  function EncodeHeader(h: Header): (r: seq<Byte>)
    requires HeaderFits(h)
    ensures |r| == HEADER_SIZE
  {
    Le16(h.startId) + [h.state, 0] + Le32(h.attributes) + Le32(h.nameSize) + Le32(h.dataSize)
    + Le32(h.guid[0]) + Le32(h.guid[1]) + Le32(h.guid[2]) + Le32(h.guid[3])
  }

  /** The bytes at [a, a + |bs|) are bs. */
  predicate Stored(m: Memory, a: nat, bs: seq<Byte>)
  {
    forall i :: 0 <= i < |bs| ==> ByteAt(m, a + i) == bs[i]
  }

  lemma U16RoundTrip(m: Memory, a: nat, x: nat)
    requires x < 0x1_0000 && Stored(m, a, Le16(x))
    ensures U16At(m, a) == x
  {
    var e := Le16(x);
    assert ByteAt(m, a + 0) == e[0] == x % 0x100;
    assert ByteAt(m, a + 1) == e[1] == x / 0x100;
  }

  lemma U32RoundTrip(m: Memory, a: nat, x: nat)
    requires x < 0x1_0000_0000 && Stored(m, a, Le32(x))
    ensures U32At(m, a) == x
  {
    var lo, hi := Le16(x % 0x1_0000), Le16(x / 0x1_0000);
    assert Stored(m, a, lo) by {
      forall i | 0 <= i < 2 ensures ByteAt(m, a + i) == lo[i] {
        assert Le32(x)[i] == lo[i];
      }
    }
    assert Stored(m, a + 2, hi) by {
      forall i | 0 <= i < 2 ensures ByteAt(m, a + 2 + i) == hi[i] {
        assert Le32(x)[2 + i] == hi[i];
      }
    }
    U16RoundTrip(m, a, x % 0x1_0000);
    U16RoundTrip(m, a + 2, x / 0x1_0000);
  }

  /** A field stored inside a larger run of bytes. */
  lemma StoredSlice(m: Memory, a: nat, bs: seq<Byte>, lo: nat, hi: nat)
    requires Stored(m, a, bs) && lo <= hi <= |bs|
    ensures Stored(m, a + lo, bs[lo..hi])
  {
    forall i | 0 <= i < hi - lo ensures ByteAt(m, a + lo + i) == bs[lo..hi][i] {
      assert ByteAt(m, a + (lo + i)) == bs[lo + i];
    }
  }

  /** Where each field sits in an encoded header. */
  lemma EncodeHeaderFields(h: Header)
    requires HeaderFits(h)
    ensures var e := EncodeHeader(h);
      && e[0..2] == Le16(h.startId) && e[2] == h.state
      && e[4..8] == Le32(h.attributes) && e[8..12] == Le32(h.nameSize) && e[12..16] == Le32(h.dataSize)
      && e[16..20] == Le32(h.guid[0]) && e[20..24] == Le32(h.guid[1])
      && e[24..28] == Le32(h.guid[2]) && e[28..32] == Le32(h.guid[3])
  {
    var a := Le16(h.startId) + [h.state, 0];
    var b := a + Le32(h.attributes);
    var c := b + Le32(h.nameSize);
    var d := c + Le32(h.dataSize);
    var g0 := d + Le32(h.guid[0]);
    var g1 := g0 + Le32(h.guid[1]);
    var g2 := g1 + Le32(h.guid[2]);
    var e := g2 + Le32(h.guid[3]);
    assert e == EncodeHeader(h);
    assert e[..28] == g2 && g2[..24] == g1 && g1[..20] == g0 && g0[..16] == d;
    assert d[..12] == c && c[..8] == b && b[..4] == a;
  }

  /** A 32-bit field stored at offset `lo` of a run of bytes reads back. */
  lemma FieldRoundTrip(m: Memory, a: nat, e: seq<Byte>, lo: nat, x: nat)
    requires x < 0x1_0000_0000 && lo + 4 <= |e| && Stored(m, a, e) && e[lo..lo + 4] == Le32(x)
    ensures U32At(m, a + lo) == x
  {
    StoredSlice(m, a, e, lo, lo + 4);
    U32RoundTrip(m, a + lo, x);
  }

  /** Reading back the bytes a header was stored as gives the header. */
  lemma HeaderRoundTrip(m: Memory, a: nat, h: Header)
    requires HeaderFits(h) && Stored(m, a, EncodeHeader(h))
    ensures ReadHeader(m, a) == h
  {
    var e := EncodeHeader(h);
    EncodeHeaderFields(h);
    StoredSlice(m, a, e, 0, 2);
    U16RoundTrip(m, a, h.startId);
    assert ByteAt(m, a + 2) == e[2];
    FieldRoundTrip(m, a, e, 4, h.attributes);
    FieldRoundTrip(m, a, e, 8, h.nameSize);
    FieldRoundTrip(m, a, e, 12, h.dataSize);
    FieldRoundTrip(m, a, e, 16, h.guid[0]);
    FieldRoundTrip(m, a, e, 20, h.guid[1]);
    FieldRoundTrip(m, a, e, 24, h.guid[2]);
    FieldRoundTrip(m, a, e, 28, h.guid[3]);
    assert ReadHeader(m, a).guid == h.guid;
  }

  // ---------------------------------------------------------------------
  // The store header

  /** VARIABLE_STORE_HEADER: Signature, Size, Format, State. */
  datatype StoreHeader = StoreHeader(signature: nat, size: nat, format: nat, state: nat)

  function ReadStoreHeader(m: Memory, a: nat): StoreHeader
  {
    StoreHeader(U32At(m, a), U32At(m, a + 4), ByteAt(m, a + 8), ByteAt(m, a + 9))
  }

  datatype StoreStatus = EfiRaw | EfiValid | EfiInvalid

  /** GetVariableStoreStatus */
  function GetVariableStoreStatus(s: StoreHeader): (r: StoreStatus)
    ensures r == EfiValid <==>
      s.signature == VARIABLE_STORE_SIGNATURE && s.format == VARIABLE_STORE_FORMATTED && s.state == VARIABLE_STORE_HEALTHY
    ensures r == EfiRaw <==>
      s.signature == ALL_ONES_32 && s.size == ALL_ONES_32 && s.format == ALL_ONES_8 && s.state == ALL_ONES_8
  {
    if s.signature == VARIABLE_STORE_SIGNATURE && s.format == VARIABLE_STORE_FORMATTED && s.state == VARIABLE_STORE_HEALTHY then
      EfiValid
    else if s.signature == ALL_ONES_32 && s.size == ALL_ONES_32 && s.format == ALL_ONES_8 && s.state == ALL_ONES_8 then
      EfiRaw
    else
      EfiInvalid
  }

  /** A store header in erased flash, or past the end of memory, reads as raw. */
  lemma ErasedStoreIsRaw(m: Memory, a: nat)
    requires forall b :: a <= b < a + STORE_HEADER_SIZE ==> ByteAt(m, b) == 0xFF
    ensures GetVariableStoreStatus(ReadStoreHeader(m, a)) == EfiRaw
  {
    assert ByteAt(m, a) == 0xFF && ByteAt(m, a + 1) == 0xFF && ByteAt(m, a + 2) == 0xFF && ByteAt(m, a + 3) == 0xFF;
    assert ByteAt(m, a + 4) == 0xFF && ByteAt(m, a + 5) == 0xFF && ByteAt(m, a + 6) == 0xFF && ByteAt(m, a + 7) == 0xFF;
    assert ByteAt(m, a + 8) == 0xFF && ByteAt(m, a + 9) == 0xFF;
  }

  /** HEADER_ALIGN(VarStoreHeader + 1): the first variable header. */
  function GetStartPointer(store: nat): nat
  {
    HeaderAlign(store + STORE_HEADER_SIZE)
  }

  /** HEADER_ALIGN(VarStoreHeader + Size): the end of the store. */
  function GetEndPointer(store: nat, s: StoreHeader): nat
  {
    HeaderAlign(store + s.size)
  }

  // ---------------------------------------------------------------------
  // Alignment

  /**
   * GET_PAD_SIZE(a) for a given ALIGNMENT: 0 when ALIGNMENT is 0 or 1,
   * otherwise `((~a) + 1) & (ALIGNMENT - 1)` on a 64-bit UINTN.
   */
  function PadSize(alignment: nat, a: nat): nat
    requires a < U64
  {
    if alignment == 0 || alignment == 1 then 0
    else And((Complement64(a) + 1) % U64, alignment - 1)
  }

  /** `~a` on a 64-bit UINTN. */
  function Complement64(a: nat): (r: nat)
    requires a < U64
    ensures r < U64 && a + r == U64 - 1
  {
    U64 - 1 - a
  }

  /**
   * For a power-of-two ALIGNMENT the pad is the least number of bytes that
   * brings `a` to a multiple of ALIGNMENT.
   */
  lemma PadSizeAligns(alignment: nat, k: nat, a: nat)
    requires alignment == Pow2(k) && k <= 64 && a < U64
    ensures PadSize(alignment, a) < alignment
    ensures (a + PadSize(alignment, a)) % alignment == 0
    ensures PadSize(alignment, a) == (alignment - a % alignment) % alignment
  {
    Pow2Values();
    if alignment > 1 {
      var x := (Complement64(a) + 1) % U64;
      NegateMod(a, x);
      Pow2IsPow2(k);
      AndMaskMod(x, alignment - 1);
      Pow2Split(k, 64);
      NegatedResidue(a, alignment, Pow2(64 - k), x);
    }
  }

  /** The two's-complement negation `(~a) + 1` of a 64-bit value. */
  lemma NegateMod(a: nat, x: nat)
    requires a < U64
    requires x == (Complement64(a) + 1) % U64
    ensures a == 0 ==> x == 0
    ensures a > 0 ==> x == U64 - a
  {
    if a > 0 {
      DivModUnique(U64 - a, U64, 0, U64 - a);
    } else {
      DivModUnique(U64, U64, 1, 0);
    }
  }

  /** d * q <= a < d * p bounds the quotient: q < p. */
  lemma MulLess(d: nat, q: nat, p: nat, a: nat, dp: nat)
    requires d > 0 && dp == d * p && d * q <= a < dp
    ensures q < p
  {
    var diff: int := p - q;
    assert d * diff == dp - d * q > 0;
  }

  /** Modulo a divisor of the word size, the negation leaves the complement residue. */
  lemma NegatedResidue(a: nat, d: nat, p: nat, x: nat)
    requires d > 0 && p > 0 && a < d * p
    requires (a == 0 ==> x == 0) && (a > 0 ==> x == d * p - a)
    ensures x % d == (d - a % d) % d
    ensures (a + x % d) % d == 0
  {
    var q, r := a / d, a % d;
    assert a == d * q + r;
    if a == 0 {
      DivModUnique(0, d, 0, 0);
      DivModUnique(d, d, 1, 0);
    } else if r == 0 {
      NegatedMultiple(a, d, p, q, x);
    } else {
      NegatedRest(a, d, p, q, r, x);
    }
  }

  /** NegatedResidue when d divides a. */
  lemma NegatedMultiple(a: nat, d: nat, p: nat, q: nat, x: nat)
    requires d > 0 && 0 < a < d * p && a == d * q && x == d * p - a
    ensures x % d == 0 && (d - a % d) % d == 0 && (a + x % d) % d == 0
  {
    assert d * (p + 1) == d * p + d;
    MulLess(d, q, p + 1, a, d * (p + 1));
    assert x == d * (p - q) + 0;
    DivModUnique(x, d, p - q, 0);
    DivModUnique(d, d, 1, 0);
    DivModUnique(a, d, q, 0);
  }

  /** NegatedResidue when a leaves the remainder r > 0. */
  lemma NegatedRest(a: nat, d: nat, p: nat, q: nat, r: nat, x: nat)
    requires 0 < r < d && a < d * p && a == d * q + r && x == d * p - a
    ensures x % d == d - r && (d - a % d) % d == d - r && (a + x % d) % d == 0
  {
    MulLess(d, q, p, a, d * p);
    assert x == d * (p - q - 1) + (d - r);
    DivModUnique(x, d, p - q - 1, d - r);
    DivModUnique(a, d, q, r);
    DivModUnique(d - r, d, 0, d - r);
    DivModUnique(a + (d - r), d, q + 1, 0);
  }

  /** With ALIGNMENT 0 or 1 there is no padding. */
  lemma NoPadForUnitAlignment(alignment: nat, a: nat)
    requires alignment <= 1 && a < U64
    ensures PadSize(alignment, a) == 0
  {
  }

  /**
   * HEADER_ALIGN: `(h + HEADER_ALIGNMENT - 1) & ~(HEADER_ALIGNMENT - 1)`,
   * which keeps everything but the two low bits of the sum.
   */
  function HeaderAlign(h: nat): nat
  {
    (h + HEADER_ALIGNMENT - 1) - (h + HEADER_ALIGNMENT - 1) % HEADER_ALIGNMENT
  }

  /** HEADER_ALIGN rounds up to the next multiple of HEADER_ALIGNMENT and is idempotent. */
  lemma HeaderAlignRounds(h: nat)
    ensures h <= HeaderAlign(h) < h + HEADER_ALIGNMENT
    ensures HeaderAlign(h) % HEADER_ALIGNMENT == 0
    ensures HeaderAlign(HeaderAlign(h)) == HeaderAlign(h)
    ensures h % HEADER_ALIGNMENT == 0 ==> HeaderAlign(h) == h
  {
    var s := h + 3;
    DivModUnique(s, 4, s / 4, s % 4);
    var g := s - s % 4;
    assert g == 4 * (s / 4);
    DivModUnique(g, 4, s / 4, 0);
    DivModUnique(g + 3, 4, s / 4, 3);
    if h % 4 == 0 {
      DivModUnique(h, 4, h / 4, 0);
      DivModUnique(h + 3, 4, h / 4, 3);
    }
  }

  // ---------------------------------------------------------------------
  // Sizes and pointers

  /** A size or attribute field of the header at `v` is erased: the variable is not fully written. */
  predicate Erased(m: Memory, v: nat)
  {
    DataSizeAt(m, v) == ALL_ONES_32 || NameSizeAt(m, v) == ALL_ONES_32 || AttributesAt(m, v) == ALL_ONES_32
  }

  /** NameSizeOfVariable: 0 for an erased State or an erased size or attribute field. */
  function NameSizeOf(m: Memory, v: nat): (r: nat)
    ensures r < 0x1_0000_0000
    ensures StateAt(m, v) == ALL_ONES_8 || Erased(m, v) ==> r == 0
    ensures !(StateAt(m, v) == ALL_ONES_8 || Erased(m, v)) ==> r == NameSizeAt(m, v)
  {
    if StateAt(m, v) == ALL_ONES_8 || DataSizeAt(m, v) == ALL_ONES_32 || NameSizeAt(m, v) == ALL_ONES_32 || AttributesAt(m, v) == ALL_ONES_32 then 0
    else NameSizeAt(m, v)
  }

  /** DataSizeOfVariable */
  function DataSizeOf(m: Memory, v: nat): (r: nat)
    ensures r < 0x1_0000_0000
    ensures StateAt(m, v) == ALL_ONES_8 || Erased(m, v) ==> r == 0
    ensures !(StateAt(m, v) == ALL_ONES_8 || Erased(m, v)) ==> r == DataSizeAt(m, v)
  {
    if StateAt(m, v) == ALL_ONES_8 || DataSizeAt(m, v) == ALL_ONES_32 || NameSizeAt(m, v) == ALL_ONES_32 || AttributesAt(m, v) == ALL_ONES_32 then 0
    else DataSizeAt(m, v)
  }

  /** NAMESIZE_OF_VARIABLE: the header-file macro, which does not look at State. */
  function NameSizeMacro(m: Memory, v: nat): nat
  {
    if DataSizeAt(m, v) == ALL_ONES_32 || AttributesAt(m, v) == ALL_ONES_32 || NameSizeAt(m, v) == ALL_ONES_32 then 0 else NameSizeAt(m, v)
  }

  /** DATASIZE_OF_VARIABLE */
  function DataSizeMacro(m: Memory, v: nat): nat
  {
    if DataSizeAt(m, v) == ALL_ONES_32 || AttributesAt(m, v) == ALL_ONES_32 || NameSizeAt(m, v) == ALL_ONES_32 then 0 else DataSizeAt(m, v)
  }

  /**
   * The macros and the functions agree except on a header whose State is
   * erased and whose other fields are written: there the functions give 0
   * and the macros the stored size.
   */
  lemma MacrosIgnoreState(m: Memory, v: nat)
    ensures StateAt(m, v) != ALL_ONES_8 ==> NameSizeMacro(m, v) == NameSizeOf(m, v) && DataSizeMacro(m, v) == DataSizeOf(m, v)
    ensures StateAt(m, v) == ALL_ONES_8 && !Erased(m, v) ==>
      && NameSizeOf(m, v) == 0 && DataSizeOf(m, v) == 0
      && NameSizeMacro(m, v) == NameSizeAt(m, v) && DataSizeMacro(m, v) == DataSizeAt(m, v)
  {
  }

  /** GetVariableNamePtr: the name follows the header. */
  function NamePtr(v: nat): nat
  {
    v + HEADER_SIZE
  }

  /** GetVariableDataPtr: name pointer + name size + the name's pad. */
  function DataPtr(m: Memory, v: nat): (r: nat)
    ensures r >= NamePtr(v) + NameSizeOf(m, v)
  {
    NamePtr(v) + NameSizeOf(m, v) + PadSize(ALIGNMENT, NameSizeOf(m, v))
  }

  /** GET_VARIABLE_DATA_PTR: the same with the macro's name size. */
  function DataPtrMacro(m: Memory, v: nat): (r: nat)
    ensures r >= NamePtr(v) + NameSizeMacro(m, v)
  {
    NamePtr(v) + NameSizeMacro(m, v) + PadSize(ALIGNMENT, NameSizeMacro(m, v))
  }

  /** IsValidVariableHeader for a non-NULL pointer. */
  predicate ValidHeader(m: Memory, v: nat)
  {
    StartIdAt(m, v) == VARIABLE_DATA
  }

  /**
   * GetNextVariablePtr: NULL (None) when the header is not a variable;
   * otherwise the header-aligned address after the padded name and data.
   */
  function NextPtr(m: Memory, v: nat): (r: Option<nat>)
  {
    if !ValidHeader(m, v) then None
    else Some(HeaderAlign(DataPtr(m, v) + DataSizeOf(m, v) + PadSize(ALIGNMENT, DataSizeOf(m, v))))
  }

  /**
   * The next header starts after this variable's header, name and data, on
   * a header boundary; so every step of a walk moves strictly forward.
   */
  lemma NextPtrAfter(m: Memory, v: nat)
    ensures NextPtr(m, v).None? <==> !ValidHeader(m, v)
    ensures NextPtr(m, v).Some? ==>
      && NextPtr(m, v).value >= NamePtr(v) + NameSizeOf(m, v) + DataSizeOf(m, v)
      && NextPtr(m, v).value > v
      && NextPtr(m, v).value % HEADER_ALIGNMENT == 0
  {
    if ValidHeader(m, v) {
      HeaderAlignRounds(DataPtr(m, v) + DataSizeOf(m, v) + PadSize(ALIGNMENT, DataSizeOf(m, v)));
    }
  }

  /** The data of a variable starts on an ALIGNMENT boundary relative to its name. */
  lemma DataAligned(m: Memory, v: nat)
    ensures (DataPtr(m, v) - NamePtr(v)) % ALIGNMENT == 0
    ensures DataPtr(m, v) - NamePtr(v) < NameSizeOf(m, v) + ALIGNMENT
  {
    assert Pow2(3) == 8;
    PadSizeAligns(ALIGNMENT, 3, NameSizeOf(m, v));
  }
}
