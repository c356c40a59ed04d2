/**
 * The PEI read-only variable services: FindVariable, PeiGetVariable and
 * PeiGetNextVariableName over a variable store in flash.
 *
 * A lookup first consults the index table kept in a HOB; failing that it
 * walks the store from where the table left off, recording each added
 * variable it passes while the table has room, and remembers a walk that
 * reached the end of the store so that later misses return at once.
 *
 * NULL is address 0. The caller's name is the bytes of its CHAR16 buffer;
 * CompareMem reads NameSize bytes of it, and a buffer shorter than that is
 * taken as a mismatch (a well-formed stored name has its terminator in its
 * last two bytes, so a shorter caller name differs before its end).
 * The GUID is the four UINT32 words the comparison reads.
 */
module VarStore {
  import opened Efi
  import opened VarFormat
  import opened VarIndex

  /** IsValidVariableHeader: not NULL and the start identifier is present. */
  predicate IsValid(m: Memory, v: nat)
  {
    v != 0 && ValidHeader(m, v)
  }

  predicate IsAdded(m: Memory, v: nat)
  {
    StateAt(m, v) == VAR_ADDED
  }

  /** GetNextVariablePtr, with NULL for an invalid header. */
  function Next(m: Memory, v: nat): (r: nat)
    ensures IsValid(m, v) ==> r > v && r % HEADER_ALIGNMENT == 0
    ensures !IsValid(m, v) ==> r == 0
  {
    if !IsValid(m, v) then 0
    else
      NextPtrAfter(m, v);
      NextPtr(m, v).value
  }

  /** The caller asks for the empty name: its first CHAR16 is 0. */
  predicate EmptyName(name: seq<Byte>)
  {
    |name| >= 2 && name[0] == 0 && name[1] == 0
  }

  /** CompareMem over the stored name's size returns 0. */
  predicate NameEqual(m: Memory, v: nat, name: seq<Byte>)
  {
    var size := NameSizeOf(m, v);
    size <= |name| && forall i :: 0 <= i < size ==> name[i] == ByteAt(m, NamePtr(v) + i)
  }

  /**
   * CompareWithValidVariable: the empty name matches any variable; any
   * other name matches when the GUID words and the stored name agree.
   */
  predicate Compare(m: Memory, v: nat, name: seq<Byte>, guid: seq<nat>)
  {
    EmptyName(name) || (GuidAt(m, v) == guid && NameEqual(m, v, name))
  }

  /** What the walk returns on: an added variable that compares equal. */
  predicate Hit(m: Memory, v: nat, name: seq<Byte>, guid: seq<nat>)
  {
    IsAdded(m, v) && Compare(m, v, name, guid)
  }

  // ---------------------------------------------------------------------
  // The store as a chain of headers

  /**
   * The headers a walk from `v` visits: each valid header below `bound`,
   * following GetNextVariablePtr, up to the first invalid one.
   */
  function Chain(m: Memory, v: nat, bound: nat): (c: seq<nat>)
    ensures forall i :: 0 <= i < |c| ==> IsValid(m, c[i]) && v <= c[i] < bound
    ensures v % HEADER_ALIGNMENT == 0 ==> forall i :: 0 <= i < |c| ==> c[i] % HEADER_ALIGNMENT == 0
    decreases bound - v
  {
    if !IsValid(m, v) || v >= bound then []
    else [v] + Chain(m, Next(m, v), bound)
  }

  /** The chain up to and including its first hit; all of it without one. */
  function HitPrefix(m: Memory, c: seq<nat>, name: seq<Byte>, guid: seq<nat>): (p: seq<nat>)
    ensures |p| <= |c| && p == c[..|p|]
  {
    if |c| == 0 then []
    else if Hit(m, c[0], name, guid) then [c[0]]
    else [c[0]] + HitPrefix(m, c[1..], name, guid)
  }

  /** The index entries recording the added variables of `c`, in order. */
  function AddedEntries(m: Memory, c: seq<nat>): (r: seq<nat>)
    ensures |r| <= |c|
    ensures forall i :: 0 <= i < |r| ==> r[i] < U16
  {
    if |c| == 0 then []
    else if IsAdded(m, c[0]) then [Encode(c[0])] + AddedEntries(m, c[1..])
    else AddedEntries(m, c[1..])
  }

  /** At most the table's capacity of the leading entries. */
  function Cap(s: seq<nat>): (r: seq<nat>)
    ensures |r| <= VARIABLE_INDEX_TABLE_VOLUME && |r| <= |s| && r == s[..|r|]
    ensures |s| <= VARIABLE_INDEX_TABLE_VOLUME ==> r == s
  {
    if |s| <= VARIABLE_INDEX_TABLE_VOLUME then s else s[..VARIABLE_INDEX_TABLE_VOLUME]
  }

  predicate SomeHit(m: Memory, c: seq<nat>, name: seq<Byte>, guid: seq<nat>)
  {
    exists i :: 0 <= i < |c| && Hit(m, c[i], name, guid)
  }

  /** `v` is the first hit of `c`. */
  predicate FirstHit(m: Memory, c: seq<nat>, v: nat, name: seq<Byte>, guid: seq<nat>)
  {
    exists i :: 0 <= i < |c| && c[i] == v && Hit(m, c[i], name, guid) &&
      forall j :: 0 <= j < i ==> !Hit(m, c[j], name, guid)
  }

  // ---------------------------------------------------------------------
  // The walk

  datatype WalkResult = WalkResult(found: bool, curr: nat, index: seq<nat>)

  /**
   * The walk through the store: while the header at `v` is valid and `v` is
   * below `bound`, record an added variable if the table has room, return
   * it if it compares equal, and move to the next header.
   */
  function Walk(m: Memory, v: nat, bound: nat, index: seq<nat>, name: seq<Byte>, guid: seq<nat>): (r: WalkResult)
    requires |name| >= 2 && |index| <= VARIABLE_INDEX_TABLE_VOLUME
    ensures var c := Chain(m, v, bound);
      && (r.found <==> SomeHit(m, c, name, guid))
      && (r.found ==> FirstHit(m, c, r.curr, name, guid))
      && (!r.found ==> r.curr == 0)
      && r.index == Cap(index + AddedEntries(m, HitPrefix(m, c, name, guid)))
    decreases bound - v
  {
    if !IsValid(m, v) || v >= bound then WalkResult(false, 0, index)
    else
      var c := Chain(m, v, bound);
      assert c[1..] == Chain(m, Next(m, v), bound);
      var index' := if |index| < VARIABLE_INDEX_TABLE_VOLUME && IsAdded(m, v) then index + [Encode(v)] else index;
      if Hit(m, v, name, guid) then
        HitHead(m, c, name, guid);
        CapAppend(index, v, m, []);
        assert index' + AddedEntries(m, []) == index';
        WalkResult(true, v, index')
      else
        var r := Walk(m, Next(m, v), bound, index', name, guid);
        HitStep(m, c, name, guid, r.curr);
        CapAppend(index, v, m, HitPrefix(m, c[1..], name, guid));
        r
  }

  /** A chain whose head is a hit: the walk stops there. */
  lemma HitHead(m: Memory, c: seq<nat>, name: seq<Byte>, guid: seq<nat>)
    requires |name| >= 2 && |c| > 0 && Hit(m, c[0], name, guid)
    ensures HitPrefix(m, c, name, guid) == [c[0]] + []
    ensures FirstHit(m, c, c[0], name, guid) && SomeHit(m, c, name, guid)
  {
    assert [c[0]][1..] == [];
  }

  /** A chain whose head is not a hit: the walk goes on with the rest. */
  lemma HitStep(m: Memory, c: seq<nat>, name: seq<Byte>, guid: seq<nat>, curr: nat)
    requires |name| >= 2 && |c| > 0 && !Hit(m, c[0], name, guid)
    ensures HitPrefix(m, c, name, guid) == [c[0]] + HitPrefix(m, c[1..], name, guid)
    ensures SomeHit(m, c, name, guid) <==> SomeHit(m, c[1..], name, guid)
    ensures FirstHit(m, c[1..], curr, name, guid) ==> FirstHit(m, c, curr, name, guid)
  {
    SomeHitStep(m, c, name, guid);
    if FirstHit(m, c[1..], curr, name, guid) {
      FirstHitStep(m, c, name, guid, curr);
    }
  }

  lemma SomeHitStep(m: Memory, c: seq<nat>, name: seq<Byte>, guid: seq<nat>)
    requires |name| >= 2 && |c| > 0 && !Hit(m, c[0], name, guid)
    ensures SomeHit(m, c, name, guid) <==> SomeHit(m, c[1..], name, guid)
  {
    if SomeHit(m, c, name, guid) {
      var i :| 0 <= i < |c| && Hit(m, c[i], name, guid);
      assert i > 0 && c[1..][i - 1] == c[i];
    }
    if SomeHit(m, c[1..], name, guid) {
      var i :| 0 <= i < |c[1..]| && Hit(m, c[1..][i], name, guid);
      assert c[i + 1] == c[1..][i];
    }
  }

  lemma FirstHitStep(m: Memory, c: seq<nat>, name: seq<Byte>, guid: seq<nat>, curr: nat)
    requires |name| >= 2 && |c| > 0 && !Hit(m, c[0], name, guid)
    requires FirstHit(m, c[1..], curr, name, guid)
    ensures FirstHit(m, c, curr, name, guid)
  {
    var d := c[1..];
    var i :| 0 <= i < |d| && d[i] == curr && Hit(m, d[i], name, guid) &&
      forall j :: 0 <= j < i ==> !Hit(m, d[j], name, guid);
    assert c[i + 1] == curr && Hit(m, c[i + 1], name, guid);
    forall j | 0 <= j < i + 1 ensures !Hit(m, c[j], name, guid) {
      if j > 0 { assert c[j] == d[j - 1]; }
    }
  }

  /** The first hit of a chain is a hit and one of its elements. */
  lemma FirstHitMember(m: Memory, c: seq<nat>, v: nat, name: seq<Byte>, guid: seq<nat>)
    requires |name| >= 2 && FirstHit(m, c, v, name, guid)
    ensures Hit(m, v, name, guid) && v in c
  {
    var i :| 0 <= i < |c| && c[i] == v && Hit(m, c[i], name, guid) && forall j :: 0 <= j < i ==> !Hit(m, c[j], name, guid);
  }

  /** Recording `v` (when the table has room) and then the rest is recording `[v] + rest`. */
  lemma CapAppend(index: seq<nat>, v: nat, m: Memory, rest: seq<nat>)
    requires |index| <= VARIABLE_INDEX_TABLE_VOLUME
    ensures var index' := if |index| < VARIABLE_INDEX_TABLE_VOLUME && IsAdded(m, v) then index + [Encode(v)] else index;
      Cap(index' + AddedEntries(m, rest)) == Cap(index + AddedEntries(m, [v] + rest))
  {
    assert ([v] + rest)[1..] == rest;
    if IsAdded(m, v) {
      assert AddedEntries(m, [v] + rest) == [Encode(v)] + AddedEntries(m, rest);
      assert index + ([Encode(v)] + AddedEntries(m, rest)) == (index + [Encode(v)]) + AddedEntries(m, rest);
      if |index| == VARIABLE_INDEX_TABLE_VOLUME {
        var s := index + AddedEntries(m, [v] + rest);
        assert s[..VARIABLE_INDEX_TABLE_VOLUME] == index;
        var t := index + AddedEntries(m, rest);
        assert t[..VARIABLE_INDEX_TABLE_VOLUME] == index;
      }
    } else {
      assert AddedEntries(m, [v] + rest) == AddedEntries(m, rest);
    }
  }

  // ---------------------------------------------------------------------
  // FindVariable

  /**
   * The loop over the index table: the first entry from `k` on whose
   * variable compares equal, or the table's length when none does.
   */
  function IndexLookup(m: Memory, t: IndexTable, k: nat, name: seq<Byte>, guid: seq<nat>): (j: nat)
    requires t.Valid() && k <= |t.index| && |name| >= 2
    ensures k <= j <= |t.index|
    ensures j < |t.index| ==> Compare(m, Decode(t.startPtr, t.index[j]), name, guid)
    ensures forall i :: k <= i < j ==> !Compare(m, Decode(t.startPtr, t.index[i]), name, guid)
    decreases |t.index| - k
  {
    if k == |t.index| then k
    else if Compare(m, Decode(t.startPtr, t.index[k]), name, guid) then k
    else
      var j := IndexLookup(m, t, k + 1, name, guid);
      assert forall i :: k < i < j ==> !Compare(m, Decode(t.startPtr, t.index[i]), name, guid);
      j
  }

  /** VARIABLE_POINTER_TRACK */
  datatype Track = Track(curr: nat, start: nat, end: nat)

  /**
   * The status FindVariable returns, the pointer track when it was written
   * (None where the source leaves the caller's track untouched) and the
   * index table HOB afterwards (None when there is none).
   */
  datatype FindResult = FindResult(status: Status, track: Option<Track>, hob: Option<IndexTable>)

  /** Where a walk stops: before EndPtr, or after it when `inclusive`. */
  function WalkBound(endPtr: nat, inclusive: bool): nat
  {
    if inclusive then endPtr + 1 else endPtr
  }

  /**
   * The walk from `v` to the end of the store and what it leaves in the
   * table. `inclusive` admits a header at EndPtr itself.
   */
  function Resume(m: Memory, t: IndexTable, v: nat, name: seq<Byte>, guid: seq<nat>, inclusive: bool): (r: FindResult)
    requires t.Valid() && |name| >= 2
    ensures r.hob.Some? && r.hob.value.Valid()
    ensures r.hob.value.startPtr == t.startPtr && r.hob.value.endPtr == t.endPtr
    ensures |r.hob.value.index| >= |t.index| && r.hob.value.index[..|t.index|] == t.index
    ensures r.status == Success || r.status == NotFound
    ensures r.track.Some? && r.track.value.start == t.startPtr && r.track.value.end == t.endPtr
    ensures r.status == Success ==> Hit(m, r.track.value.curr, name, guid) && r.track.value.curr >= v
    ensures r.status == NotFound ==> r.track.value.curr == 0
    ensures r.hob.value.goneThrough <==>
      t.goneThrough || (r.status == NotFound && |r.hob.value.index| < VARIABLE_INDEX_TABLE_VOLUME)
  {
    var bound := WalkBound(t.endPtr, inclusive);
    var w := Walk(m, v, bound, t.index, name, guid);
    var c := Chain(m, v, bound);
    CapEntries(t.index, AddedEntries(m, HitPrefix(m, c, name, guid)));
    if w.found then
      FirstHitMember(m, c, w.curr, name, guid);
      FindResult(Success, Some(Track(w.curr, t.startPtr, t.endPtr)), Some(t.(index := w.index)))
    else
      FindResult(NotFound, Some(Track(0, t.startPtr, t.endPtr)),
                 Some(t.(index := w.index, goneThrough := t.goneThrough || |w.index| < VARIABLE_INDEX_TABLE_VOLUME)))
  }

  /**
   * FindVariable, with the walk's end test as a parameter: `inclusive`
   * is the source's `Variable <= EndPtr`. The table is consulted first; a
   * table that has gone through the store answers a miss by itself. A
   * lookup only adds to the table it is given: the old entries stay in
   * place, and a store once gone through stays gone through.
   */
  function FindWith(m: Memory, storeAddr: nat, hob: Option<IndexTable>, name: seq<Byte>, guid: Option<seq<nat>>, inclusive: bool): (r: FindResult)
    requires |name| >= 2 && (hob.Some? ==> hob.value.Valid())
    ensures guid.None? ==> r == FindResult(InvalidParameter, None, hob)
    ensures guid.Some? ==> r.hob.Some? && r.hob.value.Valid()
    ensures r.status == Success || r.status == NotFound || r.status == Unsupported || r.status == InvalidParameter
    ensures r.status == Success ==> r.track.Some? && Compare(m, r.track.value.curr, name, guid.value)
    ensures r.status == NotFound && r.track.Some? ==> r.track.value.curr == 0
    ensures guid.Some? && hob.Some? ==>
      && |r.hob.value.index| >= |hob.value.index| && r.hob.value.index[..|hob.value.index|] == hob.value.index
      && (hob.value.goneThrough ==> r.hob.value.goneThrough)
  {
    if guid.None? then FindResult(InvalidParameter, None, hob)
    else
      var t := if hob.Some? then hob.value else EMPTY_TABLE;
      var j := IndexLookup(m, t, 0, name, guid.value);
      if j < |t.index| then
        FindResult(Success, Some(Track(Decode(t.startPtr, t.index[j]), t.startPtr, t.endPtr)), Some(t))
      else if t.goneThrough then
        FindResult(NotFound, None, Some(t))
      else
        WalkStore(m, storeAddr, t, name, guid.value, inclusive)
  }

  /**
   * The walk through the store when the table has no answer: from the
   * header after the last recorded one, else from the table's start
   * pointer, else from the start of the store once its header checks out.
   */
  function WalkStore(m: Memory, storeAddr: nat, t: IndexTable, name: seq<Byte>, guid: seq<nat>, inclusive: bool): (r: FindResult)
    requires |name| >= 2 && t.Valid()
    ensures r.hob.Some? && r.hob.value.Valid()
    ensures r.status == Success || r.status == NotFound || r.status == Unsupported
    ensures r.status == Success ==> r.track.Some? && Hit(m, r.track.value.curr, name, guid)
    ensures r.status == NotFound && r.track.Some? ==> r.track.value.curr == 0
    ensures |r.hob.value.index| >= |t.index| && r.hob.value.index[..|t.index|] == t.index
    ensures t.goneThrough ==> r.hob.value.goneThrough
  {
    var maxIndex := if |t.index| > 0 then Decode(t.startPtr, t.index[|t.index| - 1]) else 0;
    if maxIndex != 0 then
      Resume(m, t, Next(m, maxIndex), name, guid, inclusive)
    else if t.startPtr != 0 || t.endPtr != 0 then
      Resume(m, t, t.startPtr, name, guid, inclusive)
    else
      var sh := ReadStoreHeader(m, storeAddr);
      if GetVariableStoreStatus(sh) != EfiValid then FindResult(Unsupported, None, Some(t))
      else if sh.size == ALL_ONES_32 then FindResult(NotFound, None, Some(t))
      else
        var t' := t.(startPtr := GetStartPointer(storeAddr), endPtr := GetEndPointer(storeAddr, sh));
        Resume(m, t', t'.startPtr, name, guid, inclusive)
  }

  /** Appending entries and capping keeps a table of 16-bit entries and its old prefix. */
  lemma CapEntries(index: seq<nat>, added: seq<nat>)
    requires |index| <= VARIABLE_INDEX_TABLE_VOLUME
    requires forall i :: 0 <= i < |index| ==> index[i] < U16
    requires forall i :: 0 <= i < |added| ==> added[i] < U16
    ensures var r := Cap(index + added);
      && |r| >= |index| && r[..|index|] == index
      && forall i :: 0 <= i < |r| ==> r[i] < U16
  {
    var s := index + added;
    var r := Cap(s);
    forall i | 0 <= i < |r| ensures r[i] < U16 {
      assert r[i] == s[i];
      if i >= |index| {
        assert s[i] == added[i - |index|];
      }
    }
  }

  /**
   * What a resumed walk finds, in terms of the chain from `v` to the end
   * pointer: the first hit, and the table extended by the added variables
   * up to it.
   */
  lemma ResumeOutcome(m: Memory, t: IndexTable, v: nat, name: seq<Byte>, guid: seq<nat>, inclusive: bool)
    requires t.Valid() && |name| >= 2
    ensures var r := Resume(m, t, v, name, guid, inclusive);
      var c := Chain(m, v, WalkBound(t.endPtr, inclusive));
      && (r.status == Success <==> SomeHit(m, c, name, guid))
      && (r.status == Success ==> FirstHit(m, c, r.track.value.curr, name, guid))
      && r.hob.value.index == Cap(t.index + AddedEntries(m, HitPrefix(m, c, name, guid)))
  {
  }

  /** FindVariable as the source writes it: the walk accepts a header at EndPtr. */
  function FindVariableAsWritten(m: Memory, storeAddr: nat, hob: Option<IndexTable>, name: seq<Byte>, guid: Option<seq<nat>>): (r: FindResult)
    requires |name| >= 2 && (hob.Some? ==> hob.value.Valid())
    ensures guid.None? ==> r == FindResult(InvalidParameter, None, hob)
    ensures r.status == Success ==> r.track.Some? && Compare(m, r.track.value.curr, name, guid.value)
  {
    FindWith(m, storeAddr, hob, name, guid, true)
  }

  /** FindVariable with the walk stopping before EndPtr, as the enumeration does. */
  function FindVariable(m: Memory, storeAddr: nat, hob: Option<IndexTable>, name: seq<Byte>, guid: Option<seq<nat>>): (r: FindResult)
    requires |name| >= 2 && (hob.Some? ==> hob.value.Valid())
    ensures guid.None? ==> r == FindResult(InvalidParameter, None, hob)
    ensures r.status == Success ==> r.track.Some? && Compare(m, r.track.value.curr, name, guid.value)
  {
    FindWith(m, storeAddr, hob, name, guid, false)
  }

  // ---------------------------------------------------------------------
  // What a lookup finds

  /** The store at `storeAddr` can be walked: a valid header whose Size is not erased. */
  predicate StoreReady(m: Memory, storeAddr: nat)
  {
    var sh := ReadStoreHeader(m, storeAddr);
    GetVariableStoreStatus(sh) == EfiValid && sh.size != ALL_ONES_32
  }

  /** The headers of the store, from its start pointer to its end pointer. */
  function StoreChain(m: Memory, storeAddr: nat): seq<nat>
  {
    Chain(m, GetStartPointer(storeAddr), GetEndPointer(storeAddr, ReadStoreHeader(m, storeAddr)))
  }

  /**
   * The headers the source's walk visits: up to and including one that
   * sits at the end pointer.
   */
  function StoreChainAsWritten(m: Memory, storeAddr: nat): seq<nat>
  {
    Chain(m, GetStartPointer(storeAddr), GetEndPointer(storeAddr, ReadStoreHeader(m, storeAddr)) + 1)
  }

  /** Raising the walk's bound by one adds at most the header at the old bound. */
  lemma {:induction false} ChainOneMore(m: Memory, v: nat, bound: nat)
    ensures Chain(m, v, bound + 1) == Chain(m, v, bound)
         || (IsValid(m, bound) && Chain(m, v, bound + 1) == Chain(m, v, bound) + [bound])
    decreases bound - v
  {
    if IsValid(m, v) && v < bound {
      ChainOneMore(m, Next(m, v), bound);
      if Chain(m, Next(m, v), bound + 1) != Chain(m, Next(m, v), bound) {
        assert Chain(m, v, bound + 1) == [v] + (Chain(m, Next(m, v), bound) + [bound]);
      }
    } else if IsValid(m, v) && v == bound {
      assert Chain(m, Next(m, v), bound + 1) == [];
    }
  }

  /**
   * The source's walk sees the corrected walk's headers and, when a valid
   * header sits at the end pointer, that one too.
   */
  lemma StoreChainAsWrittenExtends(m: Memory, storeAddr: nat)
    ensures var e := GetEndPointer(storeAddr, ReadStoreHeader(m, storeAddr));
      StoreChainAsWritten(m, storeAddr) == StoreChain(m, storeAddr)
      || (IsValid(m, e) && StoreChainAsWritten(m, storeAddr) == StoreChain(m, storeAddr) + [e])
  {
    ChainOneMore(m, GetStartPointer(storeAddr), GetEndPointer(storeAddr, ReadStoreHeader(m, storeAddr)));
  }

  /** The table a lookup with no index table starts its walk with. */
  function FreshTableOf(m: Memory, storeAddr: nat): (t: IndexTable)
    ensures t.Valid()
  {
    EMPTY_TABLE.(startPtr := GetStartPointer(storeAddr), endPtr := GetEndPointer(storeAddr, ReadStoreHeader(m, storeAddr)))
  }

  /**
   * A lookup with no index table: a store that is not ready ends it with an
   * empty table, a ready one is walked from its start pointer.
   */
  lemma FreshStart(m: Memory, storeAddr: nat, name: seq<Byte>, guid: seq<nat>, inclusive: bool)
    requires |name| >= 2
    ensures var r := FindWith(m, storeAddr, None, name, Some(guid), inclusive);
      && (!StoreReady(m, storeAddr) ==> r.status != Success && r.hob == Some(EMPTY_TABLE))
      && (GetVariableStoreStatus(ReadStoreHeader(m, storeAddr)) != EfiValid ==> r.status == Unsupported)
      && (StoreReady(m, storeAddr) ==>
            r == Resume(m, FreshTableOf(m, storeAddr), GetStartPointer(storeAddr), name, guid, inclusive))
  {
    assert IndexLookup(m, EMPTY_TABLE, 0, name, guid) == 0;
  }

  /**
   * With no index table yet, a lookup walks the whole store up to
   * `bound`: it returns the first added variable that compares equal, and
   * records every added variable it passed; a miss marks the store gone
   * through unless the table filled up.
   */
  lemma {:induction false} FreshFindWith(m: Memory, storeAddr: nat, name: seq<Byte>, guid: seq<nat>, inclusive: bool)
    requires |name| >= 2
    ensures var r := FindWith(m, storeAddr, None, name, Some(guid), inclusive);
      var e := GetEndPointer(storeAddr, ReadStoreHeader(m, storeAddr));
      var c := Chain(m, GetStartPointer(storeAddr), WalkBound(e, inclusive));
      && (!StoreReady(m, storeAddr) ==> r.status != Success && r.hob == Some(EMPTY_TABLE))
      && (GetVariableStoreStatus(ReadStoreHeader(m, storeAddr)) != EfiValid ==> r.status == Unsupported)
      && (StoreReady(m, storeAddr) ==>
            && (r.status == Success <==> SomeHit(m, c, name, guid))
            && (r.status == Success ==> FirstHit(m, c, r.track.value.curr, name, guid))
            && (r.status == Success ==>
                  GetStartPointer(storeAddr) <= r.track.value.curr
                  && (if inclusive then r.track.value.curr <= e else r.track.value.curr < e))
            && r.status != Unsupported
            && r.hob.value.index == Cap(AddedEntries(m, HitPrefix(m, c, name, guid)))
            && (r.hob.value.goneThrough <==>
                  r.status == NotFound && |r.hob.value.index| < VARIABLE_INDEX_TABLE_VOLUME))
  {
    FreshStart(m, storeAddr, name, guid, inclusive);
    if StoreReady(m, storeAddr) {
      var t := FreshTableOf(m, storeAddr);
      var e := GetEndPointer(storeAddr, ReadStoreHeader(m, storeAddr));
      assert t.startPtr == GetStartPointer(storeAddr) && t.endPtr == e;
      var r := Resume(m, t, t.startPtr, name, guid, inclusive);
      ResumeOutcome(m, t, t.startPtr, name, guid, inclusive);
      var c := Chain(m, t.startPtr, WalkBound(e, inclusive));
      assert [] + AddedEntries(m, HitPrefix(m, c, name, guid)) == AddedEntries(m, HitPrefix(m, c, name, guid));
      if r.status == Success {
        FirstHitMember(m, c, r.track.value.curr, name, guid);
      }
    }
  }

  /**
   * FindVariable with no index table yet, over the headers in
   * [StartPtr, EndPtr).
   */
  lemma FreshFind(m: Memory, storeAddr: nat, name: seq<Byte>, guid: seq<nat>)
    requires |name| >= 2
    ensures var r := FindVariable(m, storeAddr, None, name, Some(guid));
      var c := StoreChain(m, storeAddr);
      && (!StoreReady(m, storeAddr) ==> r.status != Success && r.hob == Some(EMPTY_TABLE))
      && (GetVariableStoreStatus(ReadStoreHeader(m, storeAddr)) != EfiValid ==> r.status == Unsupported)
      && (StoreReady(m, storeAddr) ==>
            && (r.status == Success <==> SomeHit(m, c, name, guid))
            && (r.status == Success ==> FirstHit(m, c, r.track.value.curr, name, guid))
            && (r.status == Success ==>
                  GetStartPointer(storeAddr) <= r.track.value.curr < GetEndPointer(storeAddr, ReadStoreHeader(m, storeAddr)))
            && r.status != Unsupported
            && r.hob.value.index == Cap(AddedEntries(m, HitPrefix(m, c, name, guid)))
            && (r.hob.value.goneThrough <==>
                  r.status == NotFound && |r.hob.value.index| < VARIABLE_INDEX_TABLE_VOLUME))
  {
    assert FindVariable(m, storeAddr, None, name, Some(guid)) == FindWith(m, storeAddr, None, name, Some(guid), false);
    FreshFindWith(m, storeAddr, name, guid, false);
  }

  /**
   * FindVariable as the source writes it, with no index table yet: the
   * same outcome over the headers from StartPtr up to and including
   * EndPtr.
   */
  lemma FreshFindAsWritten(m: Memory, storeAddr: nat, name: seq<Byte>, guid: seq<nat>)
    requires |name| >= 2
    ensures var r := FindVariableAsWritten(m, storeAddr, None, name, Some(guid));
      var c := StoreChainAsWritten(m, storeAddr);
      && (!StoreReady(m, storeAddr) ==> r.status != Success && r.hob == Some(EMPTY_TABLE))
      && (GetVariableStoreStatus(ReadStoreHeader(m, storeAddr)) != EfiValid ==> r.status == Unsupported)
      && (StoreReady(m, storeAddr) ==>
            && (r.status == Success <==> SomeHit(m, c, name, guid))
            && (r.status == Success ==> FirstHit(m, c, r.track.value.curr, name, guid))
            && (r.status == Success ==>
                  GetStartPointer(storeAddr) <= r.track.value.curr <= GetEndPointer(storeAddr, ReadStoreHeader(m, storeAddr)))
            && r.status != Unsupported
            && r.hob.value.index == Cap(AddedEntries(m, HitPrefix(m, c, name, guid)))
            && (r.hob.value.goneThrough <==>
                  r.status == NotFound && |r.hob.value.index| < VARIABLE_INDEX_TABLE_VOLUME))
  {
    assert FindVariableAsWritten(m, storeAddr, None, name, Some(guid)) == FindWith(m, storeAddr, None, name, Some(guid), true);
    FreshFindWith(m, storeAddr, name, guid, true);
  }

  /** With no index table yet, FindVariable leaves the store's bounds in the table and the track. */
  lemma FreshTable(m: Memory, storeAddr: nat, name: seq<Byte>, guid: seq<nat>)
    requires |name| >= 2 && StoreReady(m, storeAddr)
    ensures var r := FindVariable(m, storeAddr, None, name, Some(guid));
      && r.hob.Some? && r.track.Some?
      && r.hob.value.startPtr == GetStartPointer(storeAddr)
      && r.hob.value.endPtr == GetEndPointer(storeAddr, ReadStoreHeader(m, storeAddr))
      && r.track.value.start == r.hob.value.startPtr && r.track.value.end == r.hob.value.endPtr
  {
    var sh := ReadStoreHeader(m, storeAddr);
    var t := EMPTY_TABLE.(startPtr := GetStartPointer(storeAddr), endPtr := GetEndPointer(storeAddr, sh));
    assert IndexLookup(m, EMPTY_TABLE, 0, name, guid) == 0;
    assert FindVariable(m, storeAddr, None, name, Some(guid)) == Resume(m, t, t.startPtr, name, guid, false);
  }

  // ---------------------------------------------------------------------
  // What the index table remembers

  /**
   * The store lies below 4 GiB in one 256 KiB window, the layout under
   * which every index entry names the variable it was made from.
   */
  predicate InWindow(m: Memory, storeAddr: nat)
  {
    var start := GetStartPointer(storeAddr);
    var end := GetEndPointer(storeAddr, ReadStoreHeader(m, storeAddr));
    end <= U32 && (start < end ==> start / WINDOW == (end - 1) / WINDOW)
  }

  /** In such a store, every header of the walk survives being recorded and looked up. */
  lemma ChainDecodes(m: Memory, storeAddr: nat, k: nat)
    requires InWindow(m, storeAddr) && k < |StoreChain(m, storeAddr)|
    ensures var v := StoreChain(m, storeAddr)[k];
      Decode(GetStartPointer(storeAddr), Encode(v)) == v
  {
    var start := GetStartPointer(storeAddr);
    var end := GetEndPointer(storeAddr, ReadStoreHeader(m, storeAddr));
    var v := StoreChain(m, storeAddr)[k];
    HeaderAlignRounds(storeAddr + STORE_HEADER_SIZE);
    WindowDecodes(start, end, v);
  }

  lemma WindowDecodes(start: nat, end: nat, v: nat)
    requires start <= v < end <= U32 && start / WINDOW == (end - 1) / WINDOW && v % 4 == 0
    ensures Decode(start, Encode(v)) == v
  {
    assert start % U32 == start;
    assert start / WINDOW <= v / WINDOW <= (end - 1) / WINDOW;
    DecodeEncode(start, v);
  }

  /** Every entry recorded for a sequence of headers is the encoding of an added one. */
  lemma {:induction false} AddedEntriesFrom(m: Memory, c: seq<nat>, i: nat)
    requires i < |AddedEntries(m, c)|
    ensures exists k :: 0 <= k < |c| && IsAdded(m, c[k]) && AddedEntries(m, c)[i] == Encode(c[k])
  {
    assert |c| > 0;
    if IsAdded(m, c[0]) {
      if i == 0 {
        assert IsAdded(m, c[0]) && AddedEntries(m, c)[0] == Encode(c[0]);
      } else {
        AddedEntriesFrom(m, c[1..], i - 1);
        var k :| 0 <= k < |c[1..]| && IsAdded(m, c[1..][k]) && AddedEntries(m, c[1..])[i - 1] == Encode(c[1..][k]);
        assert c[k + 1] == c[1..][k];
      }
    } else {
      AddedEntriesFrom(m, c[1..], i);
      var k :| 0 <= k < |c[1..]| && IsAdded(m, c[1..][k]) && AddedEntries(m, c[1..])[i] == Encode(c[1..][k]);
      assert c[k + 1] == c[1..][k];
    }
  }

  /** Every added header of a sequence has its entry recorded. */
  lemma {:induction false} AddedEntriesHas(m: Memory, c: seq<nat>, k: nat)
    requires k < |c| && IsAdded(m, c[k])
    ensures Encode(c[k]) in AddedEntries(m, c)
  {
    if k > 0 {
      AddedEntriesHas(m, c[1..], k - 1);
      assert c[1..][k - 1] == c[k];
    }
  }

  /** Without a hit the walk records the whole chain. */
  lemma {:induction false} NoHitPrefix(m: Memory, c: seq<nat>, name: seq<Byte>, guid: seq<nat>)
    requires |name| >= 2 && !SomeHit(m, c, name, guid)
    ensures HitPrefix(m, c, name, guid) == c
  {
    if |c| > 0 {
      assert !Hit(m, c[0], name, guid);
      forall i | 0 <= i < |c[1..]| ensures !Hit(m, c[1..][i], name, guid) {
        assert c[1..][i] == c[i + 1];
      }
      NoHitPrefix(m, c[1..], name, guid);
    }
  }

  /** With a first hit at position `i`, the walk records the chain up to and including it. */
  lemma {:induction false} HitPrefixUpTo(m: Memory, c: seq<nat>, name: seq<Byte>, guid: seq<nat>, i: nat)
    requires |name| >= 2 && i < |c| && Hit(m, c[i], name, guid)
    requires forall j :: 0 <= j < i ==> !Hit(m, c[j], name, guid)
    ensures HitPrefix(m, c, name, guid) == c[..i + 1]
  {
    if i > 0 {
      assert !Hit(m, c[0], name, guid);
      forall j | 0 <= j < i - 1 ensures !Hit(m, c[1..][j], name, guid) {
        assert c[1..][j] == c[j + 1];
      }
      HitPrefixUpTo(m, c[1..], name, guid, i - 1);
      assert c[..i + 1] == [c[0]] + c[1..][..i];
    }
  }

  /** An index table none of whose entries names a variable that compares equal is searched in vain. */
  lemma IndexMiss(m: Memory, t: IndexTable, name: seq<Byte>, guid: seq<nat>)
    requires t.Valid() && |name| >= 2
    requires forall i :: 0 <= i < |t.index| ==> !Compare(m, Decode(t.startPtr, t.index[i]), name, guid)
    ensures IndexLookup(m, t, 0, name, guid) == |t.index|
  {
  }

  /**
   * A store with no added variable of this name and GUID, and fewer added
   * variables than the table holds: the first lookup walks all of it,
   * records every added variable and marks the store gone through; a second
   * lookup with that table answers NOT_FOUND from the table alone, without
   * touching the track.
   */
  lemma MissIsCached(m: Memory, storeAddr: nat, name: seq<Byte>, guid: seq<nat>)
    requires |name| >= 2 && StoreReady(m, storeAddr) && InWindow(m, storeAddr)
    requires !SomeHit(m, StoreChain(m, storeAddr), name, guid)
    requires |AddedEntries(m, StoreChain(m, storeAddr))| < VARIABLE_INDEX_TABLE_VOLUME
    ensures var r := FindVariable(m, storeAddr, None, name, Some(guid));
      && r.status == NotFound && r.hob.Some? && r.hob.value.goneThrough
      && r.hob.value.index == AddedEntries(m, StoreChain(m, storeAddr))
      && FindVariable(m, storeAddr, r.hob, name, Some(guid)) == FindResult(NotFound, None, r.hob)
  {
    var c := StoreChain(m, storeAddr);
    var r := FindVariable(m, storeAddr, None, name, Some(guid));
    FreshFind(m, storeAddr, name, guid);
    FreshTable(m, storeAddr, name, guid);
    NoHitPrefix(m, c, name, guid);
    var t := r.hob.value;
    assert t.index == AddedEntries(m, c);
    forall i | 0 <= i < |t.index| ensures !Compare(m, Decode(t.startPtr, t.index[i]), name, guid) {
      AddedEntriesFrom(m, c, i);
      var k :| 0 <= k < |c| && IsAdded(m, c[k]) && AddedEntries(m, c)[i] == Encode(c[k]);
      ChainDecodes(m, storeAddr, k);
      assert !Hit(m, c[k], name, guid);
    }
    IndexMiss(m, t, name, guid);
  }

  /**
   * The entries a lookup records up to its first hit `v` name only `v` as
   * a header that compares equal, and name `v` itself.
   */
  lemma HitEntries(m: Memory, storeAddr: nat, name: seq<Byte>, guid: seq<nat>, v: nat)
    requires |name| >= 2 && InWindow(m, storeAddr)
    requires FirstHit(m, StoreChain(m, storeAddr), v, name, guid)
    ensures var e := AddedEntries(m, HitPrefix(m, StoreChain(m, storeAddr), name, guid));
      && Encode(v) in e
      && forall x :: 0 <= x < |e| && Compare(m, Decode(GetStartPointer(storeAddr), e[x]), name, guid) ==>
           Decode(GetStartPointer(storeAddr), e[x]) == v
  {
    var c := StoreChain(m, storeAddr);
    var i :| 0 <= i < |c| && c[i] == v && Hit(m, c[i], name, guid) && forall j :: 0 <= j < i ==> !Hit(m, c[j], name, guid);
    HitPrefixUpTo(m, c, name, guid, i);
    AddedEntriesHas(m, c[..i + 1], i);
    var e := AddedEntries(m, c[..i + 1]);
    forall x | 0 <= x < |e| && Compare(m, Decode(GetStartPointer(storeAddr), e[x]), name, guid)
      ensures Decode(GetStartPointer(storeAddr), e[x]) == v
    {
      HitEntry(m, storeAddr, name, guid, i, x);
    }
  }

  /** One recorded entry up to the first hit at `i` that compares equal names that hit. */
  lemma HitEntry(m: Memory, storeAddr: nat, name: seq<Byte>, guid: seq<nat>, i: nat, x: nat)
    requires |name| >= 2 && InWindow(m, storeAddr)
    requires i < |StoreChain(m, storeAddr)| && Hit(m, StoreChain(m, storeAddr)[i], name, guid)
    requires forall j :: 0 <= j < i ==> !Hit(m, StoreChain(m, storeAddr)[j], name, guid)
    requires x < |AddedEntries(m, StoreChain(m, storeAddr)[..i + 1])|
    requires Compare(m, Decode(GetStartPointer(storeAddr), AddedEntries(m, StoreChain(m, storeAddr)[..i + 1])[x]), name, guid)
    ensures Decode(GetStartPointer(storeAddr), AddedEntries(m, StoreChain(m, storeAddr)[..i + 1])[x]) == StoreChain(m, storeAddr)[i]
  {
    var c := StoreChain(m, storeAddr);
    var p := c[..i + 1];
    AddedEntriesFrom(m, p, x);
    var k :| 0 <= k < |p| && IsAdded(m, p[k]) && AddedEntries(m, p)[x] == Encode(p[k]);
    assert p[k] == c[k];
    ChainDecodes(m, storeAddr, k);
    assert Hit(m, c[k], name, guid);
    assert !(k < i);
  }

  /**
   * A store whose first added variable of this name and GUID is `v`, with
   * room in the table for every added variable up to it: the first lookup
   * returns `v`, and a second lookup with the table it left returns `v`
   * again from the table alone.
   */
  lemma HitIsCached(m: Memory, storeAddr: nat, name: seq<Byte>, guid: seq<nat>, v: nat)
    requires |name| >= 2 && StoreReady(m, storeAddr) && InWindow(m, storeAddr)
    requires FirstHit(m, StoreChain(m, storeAddr), v, name, guid)
    requires |AddedEntries(m, HitPrefix(m, StoreChain(m, storeAddr), name, guid))| <= VARIABLE_INDEX_TABLE_VOLUME
    ensures var r := FindVariable(m, storeAddr, None, name, Some(guid));
      && r.status == Success && r.track.Some? && r.track.value.curr == v && r.hob.Some?
      && FindVariable(m, storeAddr, r.hob, name, Some(guid)) == FindResult(Success, r.track, r.hob)
  {
    var c := StoreChain(m, storeAddr);
    var r := FindVariable(m, storeAddr, None, name, Some(guid));
    FreshFind(m, storeAddr, name, guid);
    FreshTable(m, storeAddr, name, guid);
    FirstHitMember(m, c, v, name, guid);
    assert SomeHit(m, c, name, guid);
    FirstHitUnique(m, c, v, r.track.value.curr, name, guid);
    HitEntries(m, storeAddr, name, guid, v);
    var t := r.hob.value;
    var e := AddedEntries(m, HitPrefix(m, c, name, guid));
    assert t.index == e;
    var j := IndexLookup(m, t, 0, name, guid);
    var x :| 0 <= x < |e| && e[x] == Encode(v);
    assert v in c;
    var k :| 0 <= k < |c| && c[k] == v;
    ChainDecodes(m, storeAddr, k);
    assert Compare(m, Decode(t.startPtr, t.index[x]), name, guid);
    assert j <= x;
    assert Decode(t.startPtr, t.index[j]) == v;
    assert r.track.value == Track(v, t.startPtr, t.endPtr);
    assert FindWith(m, storeAddr, r.hob, name, Some(guid), false) == FindResult(Success, r.track, r.hob);
  }

  // ---------------------------------------------------------------------
  // A header at the end pointer

  /**
   * The walk's `Variable <= EndPtr` lets a lookup return a header that
   * sits at the end pointer, outside the store: in a store holding only its
   * header (Size 16, so StartPtr == EndPtr) with a matching added variable
   * written right after it, the lookup as written succeeds with the end
   * pointer, while the walk that stops before EndPtr, as the enumeration's
   * does, finds nothing.
   */
  lemma EndPtrAccepted(m: Memory, storeAddr: nat, name: seq<Byte>, guid: seq<nat>)
    requires |name| >= 2 && StoreReady(m, storeAddr)
    requires GetStartPointer(storeAddr) == GetEndPointer(storeAddr, ReadStoreHeader(m, storeAddr))
    requires IsValid(m, GetStartPointer(storeAddr)) && Hit(m, GetStartPointer(storeAddr), name, guid)
    ensures var r := FindVariableAsWritten(m, storeAddr, None, name, Some(guid));
      r.status == Success && r.track == Some(Track(GetEndPointer(storeAddr, ReadStoreHeader(m, storeAddr)), GetStartPointer(storeAddr), GetEndPointer(storeAddr, ReadStoreHeader(m, storeAddr))))
    ensures FindVariable(m, storeAddr, None, name, Some(guid)).status == NotFound
  {
    var sh := ReadStoreHeader(m, storeAddr);
    var start := GetStartPointer(storeAddr);
    var t := EMPTY_TABLE.(startPtr := start, endPtr := GetEndPointer(storeAddr, sh));
    assert IndexLookup(m, EMPTY_TABLE, 0, name, guid) == 0;
    assert FindVariableAsWritten(m, storeAddr, None, name, Some(guid)) == Resume(m, t, start, name, guid, true);
    assert FindVariable(m, storeAddr, None, name, Some(guid)) == Resume(m, t, start, name, guid, false);
    assert Chain(m, start, start) == [];
    var c := Chain(m, start, start + 1);
    assert c == [start] + Chain(m, Next(m, start), start + 1);
    HitHead(m, c, name, guid);
    ResumeOutcome(m, t, start, name, guid, true);
    ResumeOutcome(m, t, start, name, guid, false);
    FirstHitMember(m, c, start, name, guid);
  }

  // ---------------------------------------------------------------------
  // PeiGetVariable

  /** The `n` bytes at `a`: what CopyMem copies out. */
  function Bytes(m: Memory, a: nat, n: nat): (r: seq<Byte>)
    ensures |r| == n && forall i :: 0 <= i < n ==> r[i] == ByteAt(m, a + i)
    decreases n
  {
    if n == 0 then [] else [ByteAt(m, a)] + Bytes(m, a + 1, n - 1)
  }

  /**
   * CompareWithValidVariable: the empty name matches every variable;
   * any other name matches when the four GUID dwords are equal and the
   * name's first NameSize bytes are the stored name.
   */
  lemma CompareMeaning(m: Memory, v: nat, name: seq<Byte>, guid: seq<nat>)
    ensures Compare(m, v, name, guid) <==>
            EmptyName(name)
            || (GuidAt(m, v) == guid && NameSizeOf(m, v) <= |name|
                && name[..NameSizeOf(m, v)] == Bytes(m, NamePtr(v), NameSizeOf(m, v)))
  {
    var size := NameSizeOf(m, v);
    if size <= |name| {
      var b := Bytes(m, NamePtr(v), size);
      if NameEqual(m, v, name) {
        assert forall i :: 0 <= i < size ==> name[..size][i] == b[i];
      }
      if name[..size] == b {
        assert forall i :: 0 <= i < size ==> name[i] == name[..size][i];
      }
    }
  }

  /**
   * The status, the *DataSize written back (the caller's value when it is
   * not written), the data copied out, the attributes and the HOB.
   */
  datatype GetResult = GetResult(status: Status, dataSize: nat, data: seq<Byte>, attributes: Option<nat>, hob: Option<IndexTable>)

  /** PeiGetVariable. A missing name or GUID is None. */
  function GetVariable(m: Memory, storeAddr: nat, hob: Option<IndexTable>, name: Option<seq<Byte>>, guid: Option<seq<nat>>, dataSize: nat): (r: GetResult)
    requires name.Some? ==> |name.value| >= 2
    requires hob.Some? ==> hob.value.Valid()
    ensures name.None? || guid.None? ==> r == GetResult(InvalidParameter, dataSize, [], None, hob)
    ensures r.attributes.Some? ==> r.status == Success && r.dataSize <= dataSize && |r.data| == r.dataSize
    ensures r.status == BufferTooSmall ==> r.dataSize > dataSize && r.data == [] && r.attributes.None?
    ensures r.attributes.None? && r.status != BufferTooSmall ==> r.dataSize == dataSize && r.data == []
    ensures r.status.IsError() ==> r.attributes.None?
  {
    if name.None? || guid.None? then GetResult(InvalidParameter, dataSize, [], None, hob)
    else CopyData(m, FindVariable(m, storeAddr, hob, name.value, guid), dataSize)
  }

  /**
   * PeiGetVariable once FindVariable has returned: a failed lookup (or a
   * NULL current pointer) passes its status through; a found variable's
   * data is copied when the buffer holds it, and its size reported.
   */
  function CopyData(m: Memory, f: FindResult, dataSize: nat): (r: GetResult)
    ensures r.hob == f.hob
    ensures f.status != Success ==> r == GetResult(f.status, dataSize, [], None, f.hob)
    ensures f.status == Success && f.track.Some? && f.track.value.curr != 0 ==>
      var v := f.track.value.curr;
      && r.dataSize == DataSizeOf(m, v)
      && (r.status == Success <==> DataSizeOf(m, v) <= dataSize)
      && (r.status == BufferTooSmall <==> DataSizeOf(m, v) > dataSize)
      && (r.status == Success ==> r.data == Bytes(m, DataPtr(m, v), DataSizeOf(m, v)) && r.attributes == Some(AttributesAt(m, v)))
      && (r.status != Success ==> r.data == [] && r.attributes.None?)
    ensures f.status == Success && (f.track.None? || f.track.value.curr == 0) ==> r == GetResult(Success, dataSize, [], None, f.hob)
  {
    if f.track.None? || f.track.value.curr == 0 || f.status != Success then
      GetResult(f.status, dataSize, [], None, f.hob)
    else
      var v := f.track.value.curr;
      var size := DataSizeOf(m, v);
      if dataSize >= size then
        GetResult(Success, size, Bytes(m, DataPtr(m, v), size), Some(AttributesAt(m, v)), f.hob)
      else
        GetResult(BufferTooSmall, size, [], None, f.hob)
  }

  /** A chain has at most one first hit. */
  lemma FirstHitUnique(m: Memory, c: seq<nat>, v: nat, w: nat, name: seq<Byte>, guid: seq<nat>)
    requires |name| >= 2 && FirstHit(m, c, v, name, guid) && FirstHit(m, c, w, name, guid)
    ensures v == w
  {
    var i :| 0 <= i < |c| && c[i] == v && Hit(m, c[i], name, guid) && forall j :: 0 <= j < i ==> !Hit(m, c[j], name, guid);
    var k :| 0 <= k < |c| && c[k] == w && Hit(m, c[k], name, guid) && forall j :: 0 <= j < k ==> !Hit(m, c[j], name, guid);
    assert i == k;
  }

  /**
   * With no index table yet and a walkable store, PeiGetVariable finds
   * nothing exactly when the store holds no added variable of that name
   * and GUID.
   */
  lemma {:induction false} FreshGetMiss(m: Memory, storeAddr: nat, name: seq<Byte>, guid: seq<nat>, dataSize: nat)
    requires |name| >= 2 && StoreReady(m, storeAddr)
    ensures var r := GetVariable(m, storeAddr, None, Some(name), Some(guid), dataSize);
      && (r.status == NotFound <==> !SomeHit(m, StoreChain(m, storeAddr), name, guid))
      && (r.status == Success || r.status == BufferTooSmall || r.status == NotFound)
  {
    var f := FindVariable(m, storeAddr, None, name, Some(guid));
    assert GetVariable(m, storeAddr, None, Some(name), Some(guid), dataSize) == CopyData(m, f, dataSize);
    FreshStatus(m, storeAddr, name, guid);
  }

  /** The part of FreshFind PeiGetVariable relies on: a hit is a non-NULL first hit. */
  lemma FreshStatus(m: Memory, storeAddr: nat, name: seq<Byte>, guid: seq<nat>)
    requires |name| >= 2 && StoreReady(m, storeAddr)
    ensures var f := FindVariable(m, storeAddr, None, name, Some(guid));
      && (f.status == Success || f.status == NotFound)
      && (f.status == Success <==> SomeHit(m, StoreChain(m, storeAddr), name, guid))
      && (f.status == Success ==>
            && f.track.Some? && f.track.value.curr != 0
            && FirstHit(m, StoreChain(m, storeAddr), f.track.value.curr, name, guid))
  {
    FreshFind(m, storeAddr, name, guid);
    var f := FindVariable(m, storeAddr, None, name, Some(guid));
    if f.status == Success {
      FirstHitMember(m, StoreChain(m, storeAddr), f.track.value.curr, name, guid);
    }
  }

  /**
   * ... and when the first such variable is `v`, it returns v's data and
   * attributes when the buffer holds them and reports v's data size either
   * way.
   */
  lemma {:induction false} FreshGetHit(m: Memory, storeAddr: nat, name: seq<Byte>, guid: seq<nat>, dataSize: nat, v: nat)
    requires |name| >= 2 && StoreReady(m, storeAddr)
    requires FirstHit(m, StoreChain(m, storeAddr), v, name, guid)
    ensures var r := GetVariable(m, storeAddr, None, Some(name), Some(guid), dataSize);
      && (r.status == Success <==> DataSizeOf(m, v) <= dataSize)
      && (r.status == BufferTooSmall <==> DataSizeOf(m, v) > dataSize)
      && r.dataSize == DataSizeOf(m, v)
      && (r.status == Success ==> r.data == Bytes(m, DataPtr(m, v), DataSizeOf(m, v)) && r.attributes == Some(AttributesAt(m, v)))
  {
    var c := StoreChain(m, storeAddr);
    var f := FindVariable(m, storeAddr, None, name, Some(guid));
    assert GetVariable(m, storeAddr, None, Some(name), Some(guid), dataSize) == CopyData(m, f, dataSize);
    FreshStatus(m, storeAddr, name, guid);
    FirstHitMember(m, c, v, name, guid);
    assert SomeHit(m, c, name, guid);
    FirstHitUnique(m, c, v, f.track.value.curr, name, guid);
  }

  // ---------------------------------------------------------------------
  // PeiGetNextVariableName

  /** `v` is the first added variable of `c`. */
  predicate FirstAdded(m: Memory, c: seq<nat>, v: nat)
  {
    exists i :: 0 <= i < |c| && c[i] == v && IsAdded(m, c[i]) && forall j :: 0 <= j < i ==> !IsAdded(m, c[j])
  }

  /**
   * The enumeration loop: from `v`, skip headers that are not added
   * variables until one is, stopping at EndPtr, at NULL or at an invalid
   * header; 0 when none is found.
   */
  function Scan(m: Memory, v: nat, end: nat): (u: nat)
    ensures u == 0 ==> forall i :: 0 <= i < |Chain(m, v, end)| ==> !IsAdded(m, Chain(m, v, end)[i])
    ensures u != 0 ==> FirstAdded(m, Chain(m, v, end), u)
    decreases end - v
  {
    if v >= end || v == 0 then 0
    else if !IsValid(m, v) then 0
    else if IsAdded(m, v) then
      var c := Chain(m, v, end);
      assert c == [v] + Chain(m, Next(m, v), end);
      assert c[0] == v && IsAdded(m, c[0]);
      assert !(forall i :: 0 <= i < |c| ==> !IsAdded(m, c[i]));
      assert FirstAdded(m, c, v);
      v
    else
      var u := Scan(m, Next(m, v), end);
      var c := Chain(m, v, end);
      assert c[1..] == Chain(m, Next(m, v), end);
      ScanStep(m, c, u);
      u
  }

  lemma ScanStep(m: Memory, c: seq<nat>, u: nat)
    requires |c| > 0 && !IsAdded(m, c[0])
    ensures (forall i :: 0 <= i < |c| ==> !IsAdded(m, c[i])) <==> (forall i :: 0 <= i < |c[1..]| ==> !IsAdded(m, c[1..][i]))
    ensures FirstAdded(m, c[1..], u) ==> FirstAdded(m, c, u)
  {
    if FirstAdded(m, c[1..], u) {
      var i :| 0 <= i < |c[1..]| && c[1..][i] == u && IsAdded(m, c[1..][i]) && forall j :: 0 <= j < i ==> !IsAdded(m, c[1..][j]);
      assert c[i + 1] == u;
      forall j | 0 <= j < i + 1 ensures !IsAdded(m, c[j]) {
        if j > 0 { assert c[j] == c[1..][j - 1]; }
      }
    }
    if forall i :: 0 <= i < |c[1..]| ==> !IsAdded(m, c[1..][i]) {
      forall i | 0 <= i < |c| ensures !IsAdded(m, c[i]) {
        if i > 0 { assert c[i] == c[1..][i - 1]; }
      }
    }
  }

  /**
   * The status, the *VariableNameSize written back, the name bytes and GUID
   * copied out (empty and None when nothing is copied) and the HOB.
   */
  datatype NextResult = NextResult(status: Status, nameSize: nat, name: seq<Byte>, guid: Option<seq<nat>>, hob: Option<IndexTable>)

  /**
   * PeiGetNextVariableName. `name` is the caller's buffer holding the
   * previous name (the empty name to start), `nameSize` its size.
   */
  function GetNextVariableName(m: Memory, storeAddr: nat, hob: Option<IndexTable>, nameSize: nat, name: Option<seq<Byte>>, guid: Option<seq<nat>>): (r: NextResult)
    requires name.Some? ==> |name.value| >= 2
    requires hob.Some? ==> hob.value.Valid()
    ensures name.None? ==> r == NextResult(InvalidParameter, nameSize, [], None, hob)
    ensures r.guid.Some? ==> r.status == Success && r.nameSize <= nameSize && |r.name| == r.nameSize
    ensures r.status == BufferTooSmall ==> r.nameSize > nameSize && r.name == [] && r.guid.None?
    ensures r.guid.None? && r.status != BufferTooSmall ==> r.nameSize == nameSize && r.name == []
  {
    if name.None? then NextResult(InvalidParameter, nameSize, [], None, hob)
    else
      var f := FindVariable(m, storeAddr, hob, name.value, guid);
      if f.track.None? || f.track.value.curr == 0 || f.status != Success then
        NextResult(f.status, nameSize, [], None, f.hob)
      else
        var curr := if EmptyName(name.value) then f.track.value.curr else Next(m, f.track.value.curr);
        var u := Scan(m, curr, f.track.value.end);
        if u == 0 then NextResult(NotFound, nameSize, [], None, f.hob)
        else
          var size := NameSizeOf(m, u);
          if size <= nameSize then NextResult(Success, size, Bytes(m, NamePtr(u), size), Some(GuidAt(m, u)), f.hob)
          else NextResult(BufferTooSmall, size, [], None, f.hob)
  }

  // ---------------------------------------------------------------------
  // What an enumeration step reports

  /** The chain from the header after its k-th element is the rest of the chain. */
  lemma {:induction false} ChainTail(m: Memory, v: nat, bound: nat, k: nat)
    requires k < |Chain(m, v, bound)|
    ensures Chain(m, Next(m, Chain(m, v, bound)[k]), bound) == Chain(m, v, bound)[k + 1..]
    decreases bound - v
  {
    var c := Chain(m, v, bound);
    assert c == [v] + Chain(m, Next(m, v), bound);
    if k > 0 {
      ChainTail(m, Next(m, v), bound, k - 1);
      assert c[k] == c[1..][k - 1];
      assert c[k + 1..] == c[1..][k..];
    }
  }

  /** A sequence has at most one first added header. */
  lemma FirstAddedUnique(m: Memory, c: seq<nat>, u: nat, w: nat)
    requires FirstAdded(m, c, u) && FirstAdded(m, c, w)
    ensures u == w
  {
    var i :| 0 <= i < |c| && c[i] == u && IsAdded(m, c[i]) && forall j :: 0 <= j < i ==> !IsAdded(m, c[j]);
    var k :| 0 <= k < |c| && c[k] == w && IsAdded(m, c[k]) && forall j :: 0 <= j < k ==> !IsAdded(m, c[j]);
    assert i == k;
  }

  /** The scan from `v` stops at the first added header of the chain from `v`, and only there. */
  lemma ScanFinds(m: Memory, v: nat, end: nat, u: nat)
    requires FirstAdded(m, Chain(m, v, end), u)
    ensures Scan(m, v, end) == u
  {
    var c := Chain(m, v, end);
    var i :| 0 <= i < |c| && c[i] == u && IsAdded(m, c[i]) && forall j :: 0 <= j < i ==> !IsAdded(m, c[j]);
    var s := Scan(m, v, end);
    assert s != 0;
    FirstAddedUnique(m, c, s, u);
  }

  /**
   * What PeiGetNextVariableName reports for the variable `u`: its name
   * size always, its name and GUID when the buffer holds the name.
   */
  predicate Reports(m: Memory, r: NextResult, u: nat, nameSize: nat)
  {
    && r.nameSize == NameSizeOf(m, u)
    && (r.status == Success <==> NameSizeOf(m, u) <= nameSize)
    && (r.status != Success ==> r.status == BufferTooSmall)
    && (r.status == Success ==> r.name == Bytes(m, NamePtr(u), NameSizeOf(m, u)) && r.guid == Some(GuidAt(m, u)))
  }

  /**
   * PeiGetNextVariableName after a successful lookup: the scan from the
   * found variable (the empty name) or the one after it decides the answer.
   */
  lemma GetNextAfterFind(m: Memory, storeAddr: nat, hob: Option<IndexTable>, nameSize: nat, name: seq<Byte>, guid: seq<nat>)
    requires |name| >= 2 && (hob.Some? ==> hob.value.Valid())
    requires var f := FindVariable(m, storeAddr, hob, name, Some(guid));
      f.status == Success && f.track.Some? && f.track.value.curr != 0
    ensures var f := FindVariable(m, storeAddr, hob, name, Some(guid));
      var curr := if EmptyName(name) then f.track.value.curr else Next(m, f.track.value.curr);
      var u := Scan(m, curr, f.track.value.end);
      var r := GetNextVariableName(m, storeAddr, hob, nameSize, Some(name), Some(guid));
      && (u == 0 ==> r.status == NotFound)
      && (u != 0 ==> Reports(m, r, u, nameSize))
  {
    var f := FindVariable(m, storeAddr, hob, name, Some(guid));
    var curr := if EmptyName(name) then f.track.value.curr else Next(m, f.track.value.curr);
    var u := Scan(m, curr, f.track.value.end);
    var r := GetNextVariableName(m, storeAddr, hob, nameSize, Some(name), Some(guid));
    if u == 0 {
      assert r == NextResult(NotFound, nameSize, [], None, f.hob);
    } else {
      var size := NameSizeOf(m, u);
      if size <= nameSize {
        assert r == NextResult(Success, size, Bytes(m, NamePtr(u), size), Some(GuidAt(m, u)), f.hob);
      } else {
        assert r == NextResult(BufferTooSmall, size, [], None, f.hob);
      }
    }
  }

  /** With the empty name, every added variable is a hit. */
  lemma EmptyNameHits(m: Memory, c: seq<nat>, name: seq<Byte>, guid: seq<nat>, v: nat)
    requires EmptyName(name)
    ensures SomeHit(m, c, name, guid) <==> exists i :: 0 <= i < |c| && IsAdded(m, c[i])
    ensures FirstHit(m, c, v, name, guid) <==> FirstAdded(m, c, v)
  {
  }

  /**
   * Starting an enumeration (the empty name, no index table yet) reports
   * the first added variable of the store, or NOT_FOUND when there is none.
   */
  lemma EnumerateFirst(m: Memory, storeAddr: nat, nameSize: nat, name: seq<Byte>, guid: seq<nat>)
    requires EmptyName(name) && StoreReady(m, storeAddr)
    ensures var r := GetNextVariableName(m, storeAddr, None, nameSize, Some(name), Some(guid));
      var c := StoreChain(m, storeAddr);
      && ((forall i :: 0 <= i < |c| ==> !IsAdded(m, c[i])) ==> r.status == NotFound)
      && (forall u :: FirstAdded(m, c, u) ==> Reports(m, r, u, nameSize))
  {
    var c := StoreChain(m, storeAddr);
    var f := FindVariable(m, storeAddr, None, name, Some(guid));
    FreshStatus(m, storeAddr, name, guid);
    FreshTable(m, storeAddr, name, guid);
    if f.status == Success {
      var v := f.track.value.curr;
      EmptyNameHits(m, c, name, guid, v);
      FirstHitMember(m, c, v, name, guid);
      GetNextAfterFind(m, storeAddr, None, nameSize, name, guid);
      ScanFinds(m, v, f.track.value.end, v);
      forall u | FirstAdded(m, c, u) ensures u == v {
        FirstAddedUnique(m, c, u, v);
      }
    } else {
      EmptyNameHits(m, c, name, guid, 0);
    }
  }

  /**
   * Continuing an enumeration from the name of the k-th header of the store
   * (no index table yet, and no earlier added variable of that name and
   * GUID) reports the first added variable after it, or NOT_FOUND when
   * there is none.
   */
  lemma EnumerateNext(m: Memory, storeAddr: nat, nameSize: nat, name: seq<Byte>, guid: seq<nat>, k: nat)
    requires |name| >= 2 && !EmptyName(name) && StoreReady(m, storeAddr)
    requires k < |StoreChain(m, storeAddr)| && Hit(m, StoreChain(m, storeAddr)[k], name, guid)
    requires forall j :: 0 <= j < k ==> !Hit(m, StoreChain(m, storeAddr)[j], name, guid)
    ensures var r := GetNextVariableName(m, storeAddr, None, nameSize, Some(name), Some(guid));
      var rest := StoreChain(m, storeAddr)[k + 1..];
      && ((forall i :: 0 <= i < |rest| ==> !IsAdded(m, rest[i])) ==> r.status == NotFound)
      && (forall u :: FirstAdded(m, rest, u) ==> Reports(m, r, u, nameSize))
  {
    var c := StoreChain(m, storeAddr);
    var f := FindVariable(m, storeAddr, None, name, Some(guid));
    FreshStatus(m, storeAddr, name, guid);
    FreshTable(m, storeAddr, name, guid);
    assert FirstHit(m, c, c[k], name, guid);
    assert SomeHit(m, c, name, guid);
    FirstHitUnique(m, c, c[k], f.track.value.curr, name, guid);
    GetNextAfterFind(m, storeAddr, None, nameSize, name, guid);
    var end := GetEndPointer(storeAddr, ReadStoreHeader(m, storeAddr));
    ChainTail(m, GetStartPointer(storeAddr), end, k);
    var rest := c[k + 1..];
    forall u | FirstAdded(m, rest, u) ensures Scan(m, Next(m, c[k]), end) == u {
      ScanFinds(m, Next(m, c[k]), end, u);
    }
  }
}
