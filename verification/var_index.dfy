/**
 * The variable index table the PEI variable lookup keeps in a HOB: each
 * variable it has walked past is remembered as a 16-bit entry, the
 * header's 32-bit address shifted right by two. An entry is turned back
 * into an address by shifting it left and adding the bits of the store's
 * start address above the low 256 KiB; so entries name variables only
 * within the 256 KiB window the store starts in.
 */
module VarIndex {
  import opened Bits
  import opened Efi

  /** VARIABLE_INDEX_TABLE_VOLUME: the capacity of the table. */
  const VARIABLE_INDEX_TABLE_VOLUME: nat := 122

  /** The mask GetVariableByIndex keeps of StartPtr: bits 18 to 31. */
  const START_MASK: nat := 0xFFFC_0000

  /** The span one entry can reach: 2^18 bytes. */
  const WINDOW: nat := 0x4_0000

  /**
   * VARIABLE_INDEX_TABLE. Length is the length of `index`; GoneThrough is
   * set once a walk has reached the end of the store with room left.
   */
  datatype IndexTable = IndexTable(goneThrough: bool, endPtr: nat, startPtr: nat, index: seq<nat>)
  {
    /** The table fits its declaration: at most 122 UINT16 entries. */
    predicate Valid()
    {
      |index| <= VARIABLE_INDEX_TABLE_VOLUME && forall i :: 0 <= i < |index| ==> index[i] < U16
    }
  }

  /** A table as FindVariable builds the HOB: empty, NULL pointers, not gone through. */
  const EMPTY_TABLE: IndexTable := IndexTable(false, 0, 0, [])

  /** The entry VariableIndexTableUpdate stores: (UINT16) ((UINT32) Variable >> 2). */
  function Encode(v: nat): (e: nat)
    ensures e < U16
  {
    ((v % U32) / 4) % U16
  }

  /** GetVariableByIndex: ((UINT32) Index[Count] << 2) + ((UINT32) StartPtr & 0xFFFC0000). */
  function Decode(startPtr: nat, e: nat): (r: nat)
    requires e < U16
    ensures r < U32
  {
    (e * 4 + And(startPtr % U32, START_MASK)) % U32
  }

  /** VariableIndexTableUpdate: the entry goes at Length and Length grows by one. */
  function Update(t: IndexTable, v: nat): (r: IndexTable)
    ensures |r.index| == |t.index| + 1 && r.index[..|t.index|] == t.index
    ensures r.goneThrough == t.goneThrough && r.startPtr == t.startPtr && r.endPtr == t.endPtr
    ensures t.Valid() && |t.index| < VARIABLE_INDEX_TABLE_VOLUME ==> r.Valid()
  {
    t.(index := t.index + [Encode(v)])
  }

  lemma Pow2Window()
    ensures Pow2(18) == WINDOW && Pow2(32) == U32
  {
    Pow2Add(16, 2);
    Pow2Values();
  }

  /** The start mask keeps the window's base: the address less its low 18 bits. */
  lemma MaskedStart(s: nat)
    requires s < U32
    ensures And(s, START_MASK) == WINDOW * (s / WINDOW)
  {
    Pow2Window();
    AndBandMask(s, 18, 32, START_MASK);
    DivModUnique(s, U32, 0, s);
    DivModUnique(s, WINDOW, s / WINDOW, s % WINDOW);
  }

  /**
   * A decoded address is a multiple of four in the start pointer's window;
   * its offset in the window is four times the entry.
   */
  lemma DecodeShape(startPtr: nat, e: nat)
    requires e < U16
    ensures Decode(startPtr, e) == WINDOW * ((startPtr % U32) / WINDOW) + 4 * e
    ensures Decode(startPtr, e) % 4 == 0
    ensures Decode(startPtr, e) / WINDOW == (startPtr % U32) / WINDOW
    ensures Decode(startPtr, e) % WINDOW == 4 * e
  {
    var s := startPtr % U32;
    MaskedStart(s);
    var w := s / WINDOW;
    assert WINDOW * w <= s < U32;
    assert w < U32 / WINDOW by {
      DivModUnique(s, WINDOW, w, s % WINDOW);
      assert U32 == WINDOW * (U32 / WINDOW);
    }
    var x := WINDOW * w + 4 * e;
    assert x < U32 by {
      assert w <= U32 / WINDOW - 1;
      assert WINDOW * w <= WINDOW * (U32 / WINDOW - 1) == U32 - WINDOW;
    }
    DivModUnique(x, U32, 0, x);
    DivModUnique(x, 4, WINDOW / 4 * w + e, 0);
    DivModUnique(x, WINDOW, w, 4 * e);
  }

  /** Every entry decodes to an address that encodes back to it. */
  lemma EncodeDecode(startPtr: nat, e: nat)
    requires e < U16
    ensures Encode(Decode(startPtr, e)) == e
  {
    DecodeShape(startPtr, e);
    var d := Decode(startPtr, e);
    var w := (startPtr % U32) / WINDOW;
    DivModUnique(d, U32, 0, d);
    DivModUnique(d, 4, U16 * w + e, 0);
    DivModUnique(U16 * w + e, U16, w, e);
  }

  /**
   * An address survives being recorded and looked up exactly when it is a
   * 32-bit, four-byte-aligned address in the start pointer's 256 KiB window.
   */
  lemma DecodeEncode(startPtr: nat, v: nat)
    ensures Decode(startPtr, Encode(v)) == v <==>
      v < U32 && v % 4 == 0 && v / WINDOW == (startPtr % U32) / WINDOW
  {
    var e := Encode(v);
    DecodeShape(startPtr, e);
    var w := (startPtr % U32) / WINDOW;
    if v < U32 && v % 4 == 0 && v / WINDOW == w {
      DivModUnique(v, U32, 0, v);
      var q := v / 4;
      DivModUnique(v, 4, q, 0);
      DivModUnique(v, WINDOW, w, v % WINDOW);
      var r := v % WINDOW;
      DivModUnique(r, 4, r / 4, r % 4);
      assert v == WINDOW * w + r;
      assert r % 4 == 0 by {
        DivModUnique(v, 4, U16 * w + r / 4, r % 4);
      }
      assert q == U16 * w + r / 4 by {
        DivModUnique(v, 4, U16 * w + r / 4, 0);
      }
      DivModUnique(q, U16, w, r / 4);
      assert e == r / 4;
    }
  }

  /** Recording a variable in the window lets the new last entry name it again. */
  lemma UpdateRecords(t: IndexTable, v: nat)
    requires v < U32 && v % 4 == 0 && v / WINDOW == (t.startPtr % U32) / WINDOW
    ensures var r := Update(t, v); Decode(r.startPtr, r.index[|t.index|]) == v
  {
    DecodeEncode(t.startPtr, v);
  }
}
