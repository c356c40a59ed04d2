/**
 * Building the resource map of a PCI bridge: every device below the bridge
 * contributes one request per implemented BAR (and per SR-IOV virtual
 * function BAR) to one of five pools, bridges below contribute a window
 * node holding their own sub-map, CardBus bridges and hot-plug bridges add
 * padding, and finally resources the bridge cannot decode are degraded
 * into pools it can decode before the apertures are packed.
 */
module PciMap {
  import opened Bits
  import opened Efi
  import opened PciTree

  /** Every device has six BAR slots. */
  const PCI_MAX_BAR: nat := 6

  /** Bar indices of the window nodes of a PCI-PCI bridge. */
  const PPB_IO_RANGE: nat := 2
  const PPB_MEM32_RANGE: nat := 3
  const PPB_PMEM32_RANGE: nat := 4
  const PPB_PMEM64_RANGE: nat := 5
  const PPB_MEM64_RANGE: nat := 0xFF

  /** Window alignments of a PCI-PCI bridge: 4 KiB for I/O, 1 MiB for memory. */
  const PPB_IO_ALIGNMENT: nat := 0xFFF
  const PPB_MEM_ALIGNMENT: nat := 0xFFFFF

  /** The five resource pools of a bridge. */
  datatype Pool = IoPool | Mem32Pool | PMem32Pool | Mem64Pool | PMem64Pool

  /** The request type a node of each pool is created with. */
  function PoolType(p: Pool): BarType
  {
    match p
    case IoPool => Io16
    case Mem32Pool => Mem32
    case PMem32Pool => PMem32
    case Mem64Pool => Mem64
    case PMem64Pool => PMem64
  }

  /** The five resource-tree roots a map is built into. */
  datatype Trees = Trees(io: Node, mem32: Node, pmem32: Node, mem64: Node, pmem64: Node)
  {
    function Get(p: Pool): Node
    {
      match p
      case IoPool => io
      case Mem32Pool => mem32
      case PMem32Pool => pmem32
      case Mem64Pool => mem64
      case PMem64Pool => pmem64
    }

    function Set(p: Pool, n: Node): (r: Trees)
      ensures r.Get(p) == n
      ensures forall q :: q != p ==> r.Get(q) == Get(q)
    {
      match p
      case IoPool => this.(io := n)
      case Mem32Pool => this.(mem32 := n)
      case PMem32Pool => this.(pmem32 := n)
      case Mem64Pool => this.(mem64 := n)
      case PMem64Pool => this.(pmem64 := n)
    }
  }

  // ---------------------------------------------------------------------
  // Inserting a batch of requests

  /** The nodes of a batch that go to pool p, in batch order. */
  function NodesFor(reqs: seq<(Pool, Node)>, p: Pool): seq<Node>
  {
    if reqs == [] then []
    else (if reqs[0].0 == p then [reqs[0].1] else []) + NodesFor(reqs[1..], p)
  }

  /** Insert every request of a batch, in order, into its pool. */
  function InsertAll(trees: Trees, reqs: seq<(Pool, Node)>): (r: Trees)
    decreases |reqs|
  {
    if reqs == [] then trees
    else
      var p := reqs[0].0;
      InsertAll(trees.Set(p, InsertResourceNode(trees.Get(p), reqs[0].1)), reqs[1..])
  }

  /**
   * A batch lands exactly in its pools: each pool gains the batch's nodes
   * for it and nothing else, its root is otherwise untouched, and sorted
   * child lists stay sorted.
   */
  lemma InsertAllContents(trees: Trees, reqs: seq<(Pool, Node)>, p: Pool)
    ensures multiset(InsertAll(trees, reqs).Get(p).children)
         == multiset(trees.Get(p).children) + multiset(NodesFor(reqs, p))
    ensures |InsertAll(trees, reqs).Get(p).children| == |trees.Get(p).children| + |NodesFor(reqs, p)|
    ensures InsertAll(trees, reqs).Get(p).(children := trees.Get(p).children) == trees.Get(p)
    ensures Descending(trees.Get(p).children) ==> Descending(InsertAll(trees, reqs).Get(p).children)
  {
    InsertAllCount(trees, reqs, p);
    InsertAllRoot(trees, reqs, p);
    if Descending(trees.Get(p).children) {
      InsertAllSorted(trees, reqs, p);
    }
  }

  /** One insertion, seen from pool p. */
  lemma InsertStep(trees: Trees, x: (Pool, Node), p: Pool)
    ensures var next := trees.Set(x.0, InsertResourceNode(trees.Get(x.0), x.1));
            var added := if x.0 == p then [x.1] else [];
            && multiset(next.Get(p).children) == multiset(trees.Get(p).children) + multiset(added)
            && |next.Get(p).children| == |trees.Get(p).children| + |added|
            && SameRoot(trees.Get(p), next.Get(p))
            && (Descending(trees.Get(p).children) ==> Descending(next.Get(p).children))
  {
  }

  lemma {:induction false} InsertAllCount(trees: Trees, reqs: seq<(Pool, Node)>, p: Pool)
    ensures multiset(InsertAll(trees, reqs).Get(p).children)
         == multiset(trees.Get(p).children) + multiset(NodesFor(reqs, p))
    ensures |InsertAll(trees, reqs).Get(p).children| == |trees.Get(p).children| + |NodesFor(reqs, p)|
    decreases |reqs|
  {
    if reqs != [] {
      var x := reqs[0];
      var next := trees.Set(x.0, InsertResourceNode(trees.Get(x.0), x.1));
      var added: seq<Node> := if x.0 == p then [x.1] else [];
      InsertStep(trees, x, p);
      InsertAllCount(next, reqs[1..], p);
      assert InsertAll(trees, reqs) == InsertAll(next, reqs[1..]);
      assert NodesFor(reqs, p) == added + NodesFor(reqs[1..], p);
      assert multiset(NodesFor(reqs, p)) == multiset(added) + multiset(NodesFor(reqs[1..], p));
    }
  }

  lemma {:induction false} InsertAllRoot(trees: Trees, reqs: seq<(Pool, Node)>, p: Pool)
    ensures SameRoot(trees.Get(p), InsertAll(trees, reqs).Get(p))
    decreases |reqs|
  {
    if reqs != [] {
      var x := reqs[0];
      var next := trees.Set(x.0, InsertResourceNode(trees.Get(x.0), x.1));
      InsertStep(trees, x, p);
      InsertAllRoot(next, reqs[1..], p);
      assert InsertAll(trees, reqs) == InsertAll(next, reqs[1..]);
    }
  }

  lemma {:induction false} InsertAllSorted(trees: Trees, reqs: seq<(Pool, Node)>, p: Pool)
    requires Descending(trees.Get(p).children)
    ensures Descending(InsertAll(trees, reqs).Get(p).children)
    decreases |reqs|
  {
    if reqs != [] {
      var x := reqs[0];
      var next := trees.Set(x.0, InsertResourceNode(trees.Get(x.0), x.1));
      InsertStep(trees, x, p);
      InsertAllSorted(next, reqs[1..], p);
      assert InsertAll(trees, reqs) == InsertAll(next, reqs[1..]);
    }
  }

  /** InsertAllContents for all five pools at once. */
  lemma InsertAllAll(trees: Trees, reqs: seq<(Pool, Node)>)
    ensures forall p :: multiset(InsertAll(trees, reqs).Get(p).children)
                     == multiset(trees.Get(p).children) + multiset(NodesFor(reqs, p))
    ensures forall p :: Descending(trees.Get(p).children) ==> Descending(InsertAll(trees, reqs).Get(p).children)
    ensures SameRoots(trees, InsertAll(trees, reqs))
  {
    forall p
      ensures multiset(InsertAll(trees, reqs).Get(p).children)
           == multiset(trees.Get(p).children) + multiset(NodesFor(reqs, p))
      ensures Descending(trees.Get(p).children) ==> Descending(InsertAll(trees, reqs).Get(p).children)
    {
      InsertAllContents(trees, reqs, p);
    }
    InsertAllSameRoots(trees, reqs);
  }

  /** A pool the batch does not address is left exactly as it was. */
  lemma {:induction false} InsertAllUntouched(trees: Trees, reqs: seq<(Pool, Node)>, p: Pool)
    requires NodesFor(reqs, p) == []
    ensures InsertAll(trees, reqs).Get(p) == trees.Get(p)
    decreases |reqs|
  {
    if reqs != [] {
      var q := reqs[0].0;
      InsertAllUntouched(trees.Set(q, InsertResourceNode(trees.Get(q), reqs[0].1)), reqs[1..], p);
    }
  }

  lemma {:induction false} NodesForAppend(a: seq<(Pool, Node)>, b: seq<(Pool, Node)>, p: Pool)
    ensures NodesFor(a + b, p) == NodesFor(a, p) + NodesFor(b, p)
    decreases |a|
  {
    if a != [] {
      assert (a + b)[0] == a[0];
      assert (a + b)[1..] == a[1..] + b;
      NodesForAppend(a[1..], b, p);
    } else {
      assert a + b == b;
    }
  }

  // ---------------------------------------------------------------------
  // Requests of one device

  /** Entry i of a BAR table; slots beyond the table are unimplemented. */
  function BarAt(bars: seq<BarInfo>, i: nat): BarInfo
  {
    if i < |bars| then bars[i] else BarInfo(Unknown, 0, 0, 0)
  }

  /**
   * The pool a BAR of this type requests from. I/O BARs of either width go
   * to the I/O pool, and virtual-function I/O BARs request nothing.
   */
  function BarPool(t: BarType, isVirtual: bool): Option<Pool>
  {
    match t
    case Unknown => None
    case Io16 => if isVirtual then None else Some(IoPool)
    case Io32 => if isVirtual then None else Some(IoPool)
    case Mem32 => Some(Mem32Pool)
    case PMem32 => Some(PMem32Pool)
    case Mem64 => Some(Mem64Pool)
    case PMem64 => Some(PMem64Pool)
  }

  /** The request for slot i of the physical (or VF) BAR table, if any. */
  function BarRequest(owner: Owner, i: nat, isVirtual: bool): Option<(Pool, Node)>
  {
    var info := BarAt(if isVirtual then owner.vfBars else owner.bars, i);
    match BarPool(info.barType, isVirtual)
    case None => None
    case Some(p) =>
      var n := CreateResourceNode(owner, info.length, info.alignment, i, PoolType(p), Typical);
      Some((p, if isVirtual then n.(isVirtual := true) else n))
  }

  /** The requests of slots i..5, in slot order. */
  function BarRequests(owner: Owner, isVirtual: bool, i: nat): seq<(Pool, Node)>
    requires i <= PCI_MAX_BAR
    decreases PCI_MAX_BAR - i
  {
    if i == PCI_MAX_BAR then []
    else
      (match BarRequest(owner, i, isVirtual) case None => [] case Some(req) => [req])
      + BarRequests(owner, isVirtual, i + 1)
  }

  /**
   * What a BAR request looks like: every request of slots i..5 comes from
   * an implemented slot, carries that slot's length and alignment, the
   * slot index as its bar number, the pool's type, and the VF flag.
   */
  lemma {:induction false} BarRequestsShape(owner: Owner, isVirtual: bool, i: nat)
    requires i <= PCI_MAX_BAR
    ensures forall k :: 0 <= k < |BarRequests(owner, isVirtual, i)| ==>
              var (p, n) := BarRequests(owner, isVirtual, i)[k];
              var info := BarAt(if isVirtual then owner.vfBars else owner.bars, n.bar);
              && i <= n.bar < PCI_MAX_BAR
              && BarPool(info.barType, isVirtual) == Some(p)
              && n.length == info.length && n.alignment == info.alignment
              && n.resType == PoolType(p) && n.isVirtual == isVirtual
              && n.usage == Typical && n.owner == owner && n.children == []
    decreases PCI_MAX_BAR - i
  {
    if i < PCI_MAX_BAR {
      BarRequestsShape(owner, isVirtual, i + 1);
    }
  }

  /** Every implemented slot i..5 produces a request. */
  lemma {:induction false} BarRequestsCount(owner: Owner, isVirtual: bool, i: nat)
    requires i <= PCI_MAX_BAR
    ensures |BarRequests(owner, isVirtual, i)| == Implemented(owner, isVirtual, i)
    decreases PCI_MAX_BAR - i
  {
    if i < PCI_MAX_BAR {
      BarRequestsCount(owner, isVirtual, i + 1);
    }
  }

  /** The number of slots i..5 whose BAR requests something. */
  function Implemented(owner: Owner, isVirtual: bool, i: nat): nat
    requires i <= PCI_MAX_BAR
    decreases PCI_MAX_BAR - i
  {
    if i == PCI_MAX_BAR then 0
    else
      var info := BarAt(if isVirtual then owner.vfBars else owner.bars, i);
      (if BarPool(info.barType, isVirtual).Some? then 1 else 0) + Implemented(owner, isVirtual, i + 1)
  }

  /** Virtual functions never request I/O space. */
  lemma {:induction false} VfRequestsNoIo(owner: Owner, i: nat)
    requires i <= PCI_MAX_BAR
    ensures NodesFor(BarRequests(owner, true, i), IoPool) == []
    decreases PCI_MAX_BAR - i
  {
    if i < PCI_MAX_BAR {
      VfRequestsNoIo(owner, i + 1);
      var head := match BarRequest(owner, i, true) case None => [] case Some(req) => [req];
      NodesForAppend(head, BarRequests(owner, true, i + 1), IoPool);
    }
  }

  /**
   * GetResourceFromDevice: insert the requests of the physical BARs, then
   * of the VF BARs. The flag returned is `Allocated`: set when no physical
   * BAR requested anything (VF BARs do not count).
   */
  function GetResourceFromDevice(owner: Owner, trees: Trees): (r: (Trees, bool))
    ensures forall p :: multiset(r.0.Get(p).children)
                     == multiset(trees.Get(p).children)
                      + multiset(NodesFor(BarRequests(owner, false, 0), p))
                      + multiset(NodesFor(BarRequests(owner, true, 0), p))
    ensures forall p :: Descending(trees.Get(p).children) ==> Descending(r.0.Get(p).children)
    ensures SameRoots(trees, r.0)
    ensures r.1 <==> forall i :: 0 <= i < PCI_MAX_BAR ==> BarPool(BarAt(owner.bars, i).barType, false).None?
  {
    var phys := BarRequests(owner, false, 0);
    var vf := BarRequests(owner, true, 0);
    InsertAllAll(trees, phys);
    InsertAllAll(InsertAll(trees, phys), vf);
    SameRootsTrans(trees, InsertAll(trees, phys), InsertAll(InsertAll(trees, phys), vf));
    BarRequestsCount(owner, false, 0);
    NoneImplemented(owner, 0);
    (InsertAll(InsertAll(trees, phys), vf), phys == [])
  }

  lemma {:induction false} NoneImplemented(owner: Owner, i: nat)
    requires i <= PCI_MAX_BAR
    ensures Implemented(owner, false, i) == 0
        <==> forall k :: i <= k < PCI_MAX_BAR ==> BarPool(BarAt(owner.bars, k).barType, false).None?
    decreases PCI_MAX_BAR - i
  {
    if i < PCI_MAX_BAR {
      NoneImplemented(owner, i + 1);
    }
  }

  /** The I/O pool only ever receives the device's physical I/O requests. */
  lemma GetResourceFromDeviceIo(owner: Owner, trees: Trees)
    ensures multiset(GetResourceFromDevice(owner, trees).0.io.children)
         == multiset(trees.io.children) + multiset(NodesFor(BarRequests(owner, false, 0), IoPool))
  {
    VfRequestsNoIo(owner, 0);
    assert GetResourceFromDevice(owner, trees).0.Get(IoPool) == GetResourceFromDevice(owner, trees).0.io;
  }

  // ---------------------------------------------------------------------
  // Padding

  /** ResourcePaddingForCardBusBridge: two 32 MiB memory windows and two 256-byte I/O windows. */
  function CardBusPadding(owner: Owner): seq<(Pool, Node)>
  {
    [ (Mem32Pool, CreateResourceNode(owner, 0x2000000, 0x1FFFFFF, 1, Mem32, Padding)),
      (PMem32Pool, CreateResourceNode(owner, 0x2000000, 0x1FFFFFF, 2, PMem32, Padding)),
      (IoPool, CreateResourceNode(owner, 0x100, 0xFF, 3, Io16, Padding)),
      (IoPool, CreateResourceNode(owner, 0x100, 0xFF, 4, Io16, Padding)) ]
  }

  lemma CardBusNodes(owner: Owner)
    ensures var s := CardBusPadding(owner);
            && NodesFor(s, IoPool) == [s[2].1, s[3].1]
            && NodesFor(s, Mem32Pool) == [s[0].1]
            && NodesFor(s, PMem32Pool) == [s[1].1]
            && NodesFor(s, Mem64Pool) == []
            && NodesFor(s, PMem64Pool) == []
  {
    var s := CardBusPadding(owner);
    assert s == [s[0]] + [s[1]] + [s[2]] + [s[3]];
    forall p
      ensures NodesFor(s, p)
           == NodesFor([s[0]], p) + NodesFor([s[1]], p) + NodesFor([s[2]], p) + NodesFor([s[3]], p)
    {
      NodesForAppend([s[0]] + [s[1]] + [s[2]], [s[3]], p);
      NodesForAppend([s[0]] + [s[1]], [s[2]], p);
      NodesForAppend([s[0]], [s[1]], p);
    }
    forall p, k | 0 <= k < 4
      ensures NodesFor([s[k]], p) == if s[k].0 == p then [s[k].1] else []
    {
      assert [s[k]][1..] == [];
    }
  }

  /**
   * ResourcePaddingForCardBusBridge: the CardBus bridge's two memory
   * windows go to Mem32 and PMem32 and its two I/O windows to I/O; the
   * 64-bit pools are untouched.
   */
  function ResourcePaddingForCardBusBridge(owner: Owner, trees: Trees): (r: Trees)
    ensures var s := CardBusPadding(owner);
            && multiset(r.io.children) == multiset(trees.io.children) + multiset{s[2].1, s[3].1}
            && multiset(r.mem32.children) == multiset(trees.mem32.children) + multiset{s[0].1}
            && multiset(r.pmem32.children) == multiset(trees.pmem32.children) + multiset{s[1].1}
    ensures r.mem64 == trees.mem64 && r.pmem64 == trees.pmem64
    ensures SameRoots(trees, r)
  {
    CardBusPools(owner, trees);
    CardBusUntouched(owner, trees);
    InsertAllFrame(trees, trees, CardBusPadding(owner));
    InsertAll(trees, CardBusPadding(owner))
  }

  lemma CardBusUntouched(owner: Owner, trees: Trees)
    ensures InsertAll(trees, CardBusPadding(owner)).mem64 == trees.mem64
    ensures InsertAll(trees, CardBusPadding(owner)).pmem64 == trees.pmem64
  {
    CardBusNodes(owner);
    InsertAllUntouched(trees, CardBusPadding(owner), Mem64Pool);
    InsertAllUntouched(trees, CardBusPadding(owner), PMem64Pool);
  }

  lemma CardBusPools(owner: Owner, trees: Trees)
    ensures var s := CardBusPadding(owner);
            var r := InsertAll(trees, s);
            && multiset(r.io.children) == multiset(trees.io.children) + multiset{s[2].1, s[3].1}
            && multiset(r.mem32.children) == multiset(trees.mem32.children) + multiset{s[0].1}
            && multiset(r.pmem32.children) == multiset(trees.pmem32.children) + multiset{s[1].1}
  {
    var s := CardBusPadding(owner);
    CardBusNodes(owner);
    InsertAllContents(trees, s, IoPool);
    InsertAllContents(trees, s, Mem32Pool);
    InsertAllContents(trees, s, PMem32Pool);
    assert multiset([s[2].1, s[3].1]) == multiset{s[2].1, s[3].1};
  }

  /** ACPI resource descriptor tags and resource types used by padding descriptors. */
  const ACPI_ADDRESS_SPACE_DESCRIPTOR: nat := 0x8A
  const ACPI_END_TAG_DESCRIPTOR: nat := 0x79
  const ACPI_ADDRESS_SPACE_TYPE_MEM: nat := 0x00
  const ACPI_ADDRESS_SPACE_TYPE_IO: nat := 0x01
  /** `SpecificFlag` of a prefetchable memory range. */
  const PREFETCHABLE_FLAG: nat := 0x6

  /** The fields of an ACPI QWORD address-space descriptor that padding reads. */
  datatype Descriptor = Descriptor(
    desc: nat,
    resType: nat,
    granularity: nat,
    specificFlag: nat,
    addrRangeMax: nat,
    addrLen: nat)

  /**
   * The pool a padding descriptor pads, if any: I/O descriptors pad I/O;
   * memory descriptors of granularity 32 or 64 pad the prefetchable pool
   * of that width when the flag is 6 and the plain one when it is 0. A
   * zero length pads nothing.
   */
  function PaddingPool(d: Descriptor): Option<Pool>
  {
    if d.desc != ACPI_ADDRESS_SPACE_DESCRIPTOR || d.addrLen == 0 then None
    else if d.resType == ACPI_ADDRESS_SPACE_TYPE_IO then Some(IoPool)
    else if d.resType != ACPI_ADDRESS_SPACE_TYPE_MEM then None
    else if d.granularity == 32 && d.specificFlag == PREFETCHABLE_FLAG then Some(PMem32Pool)
    else if d.granularity == 32 && d.specificFlag == 0 then Some(Mem32Pool)
    else if d.granularity == 64 && d.specificFlag == PREFETCHABLE_FLAG then Some(PMem64Pool)
    else if d.granularity == 64 && d.specificFlag == 0 then Some(Mem64Pool)
    else None
  }

  /**
   * The padding requests of a descriptor list, up to its end tag. The
   * descriptor's maximum address is used as the node's alignment, and the
   * bar index is always 0.
   */
  function PaddingRequests(owner: Owner, ds: seq<Descriptor>): (r: seq<(Pool, Node)>)
    ensures |r| <= |ds|
  {
    if ds == [] || ds[0].desc == ACPI_END_TAG_DESCRIPTOR then []
    else
      (match PaddingPool(ds[0])
       case None => []
       case Some(p) => [(p, CreateResourceNode(owner, ds[0].addrLen, ds[0].addrRangeMax, 0, PoolType(p), Padding))])
      + PaddingRequests(owner, ds[1..])
  }

  /** Descriptors after the end tag are never read. */
  lemma PaddingStopsAtEndTag(owner: Owner, ds: seq<Descriptor>, tail: seq<Descriptor>, endTag: Descriptor)
    requires endTag.desc == ACPI_END_TAG_DESCRIPTOR
    ensures PaddingRequests(owner, ds + [endTag] + tail) == PaddingRequests(owner, ds + [endTag])
  {
    if ds != [] {
      assert (ds + [endTag] + tail)[1..] == ds[1..] + [endTag] + tail;
      assert (ds + [endTag])[1..] == ds[1..] + [endTag];
      PaddingStopsAtEndTag(owner, ds[1..], tail, endTag);
    } else {
      assert (ds + [endTag] + tail)[0] == endTag;
    }
  }

  /** Padding requests only ever hold padding nodes of their pool's type and nonzero length. */
  lemma {:induction false} PaddingRequestsShape(owner: Owner, ds: seq<Descriptor>)
    ensures forall k :: 0 <= k < |PaddingRequests(owner, ds)| ==>
              var (p, n) := PaddingRequests(owner, ds)[k];
              n.usage == Padding && n.resType == PoolType(p) && n.length != 0 && n.owner == owner
              && n.bar == 0
  {
    if ds != [] && ds[0].desc != ACPI_END_TAG_DESCRIPTOR {
      PaddingRequestsShape(owner, ds[1..]);
    }
  }

  /** ApplyResourcePadding. */
  function ApplyResourcePadding(owner: Owner, ds: seq<Descriptor>, trees: Trees): (r: Trees)
    ensures forall p :: multiset(r.Get(p).children)
                     == multiset(trees.Get(p).children) + multiset(NodesFor(PaddingRequests(owner, ds), p))
    ensures forall p :: Descending(trees.Get(p).children) ==> Descending(r.Get(p).children)
    ensures SameRoots(trees, r)
  {
    InsertAllAll(trees, PaddingRequests(owner, ds));
    InsertAll(trees, PaddingRequests(owner, ds))
  }

  // ---------------------------------------------------------------------
  // Degradation

  /** EFI_BRIDGE_*_DECODE_SUPPORTED: the resource kinds a bridge can decode. */
  datatype Decode = Io16Decode | Io32Decode | Mem32Decode | PMem32Decode | Mem64Decode | PMem64Decode
                  | BusDecode | PMemMemCombine

  /** Two roots that differ at most in their child lists. */
  predicate SameRoot(a: Node, b: Node)
  {
    b.(children := a.children) == a
  }

  /** Two maps whose five roots differ at most in their child lists. */
  predicate SameRoots(a: Trees, b: Trees)
  {
    SameRoot(a.io, b.io) && SameRoot(a.mem32, b.mem32) && SameRoot(a.pmem32, b.pmem32)
    && SameRoot(a.mem64, b.mem64) && SameRoot(a.pmem64, b.pmem64)
  }

  /** The number of requests in the four memory pools. */
  function MemCount(t: Trees): nat
  {
    |t.mem32.children| + |t.pmem32.children| + |t.mem64.children| + |t.pmem64.children|
  }

  /** MergeResourceTree between two memory pools of a map. */
  function Merge(trees: Trees, dst: Pool, src: Pool, typeMerge: bool): (r: Trees)
    requires dst != src && dst != IoPool && src != IoPool
    ensures r.Get(src).children == []
    ensures |r.Get(dst).children| == |trees.Get(dst).children| + |trees.Get(src).children|
    ensures forall p :: p != src && p != dst ==> r.Get(p) == trees.Get(p)
    ensures multiset(r.Get(dst).children)
         == multiset(trees.Get(dst).children)
          + multiset(RetypeAll(trees.Get(src).children, if typeMerge then Some(trees.Get(dst).resType) else None))
    ensures SameRoots(trees, r)
    ensures MemCount(r) == MemCount(trees)
  {
    var m := MergeResourceTree(trees.Get(dst), trees.Get(src), typeMerge);
    var r := trees.Set(dst, m.0).Set(src, m.1);
    assert r.io == trees.io;
    r
  }

  /** The requests of `kids` retyped to `t` when `moved`; none otherwise. */
  function MovedAs(kids: seq<Node>, t: BarType, moved: bool): multiset<Node>
  {
    if moved then multiset(RetypeAll(kids, Some(t))) else multiset{}
  }

  /** The PMem64 requests are folded into PMem32. */
  predicate DegradesPMem64(decodes: set<Decode>, hasParent: bool, hasOprom: bool, trees: Trees)
  {
    PMem64Decode !in decodes || (trees.pmem32.length != 0 && hasParent) || hasOprom
  }

  /**
   * DegradeResource. `hasOprom` is whether a direct child of the bridge
   * has an option ROM; `hasParent` is whether the bridge is not a root
   * bridge. Each merge moves every node of the source pool into the
   * destination pool, retyped to the destination's type except in the
   * final combine step.
   */
  function DegradeResource(decodes: set<Decode>, hasParent: bool, hasOprom: bool, trees: Trees): (r: Trees)
    ensures r.io == trees.io
    ensures SameRoots(trees, r)
    ensures MemCount(r) == MemCount(trees)
    ensures PMem64Decode !in decodes ==> r.pmem64.children == []
    ensures PMem32Decode !in decodes ==> r.pmem32.children == []
    ensures Mem64Decode !in decodes && PMemMemCombine !in decodes ==> r.mem64.children == []
    ensures PMemMemCombine in decodes ==> r.pmem32.children == [] && r.pmem64.children == []
    ensures !DegradesPMem64(decodes, hasParent, hasOprom, trees) && PMemMemCombine !in decodes ==>
              r.pmem64 == trees.pmem64
    ensures var t3 := DegradeTypes(decodes, hasParent, hasOprom, trees);
      && (PMemMemCombine !in decodes ==> r == t3)
      && (PMemMemCombine in decodes ==>
            && multiset(r.mem32.children) == multiset(t3.mem32.children) + multiset(t3.pmem32.children)
            && multiset(r.mem64.children) == multiset(t3.mem64.children) + multiset(t3.pmem64.children))
  {
    var t3 := DegradeTypes(decodes, hasParent, hasOprom, trees);
    if PMemMemCombine in decodes then Combine(t3) else t3
  }

  /** The final merges, without retyping: PMem32 into Mem32 and PMem64 into Mem64. */
  function Combine(t3: Trees): (r: Trees)
    ensures r.io == t3.io && SameRoots(t3, r) && MemCount(r) == MemCount(t3)
    ensures r.pmem32.children == [] && r.pmem64.children == []
    ensures multiset(r.mem32.children) == multiset(t3.mem32.children) + multiset(t3.pmem32.children)
    ensures multiset(r.mem64.children) == multiset(t3.mem64.children) + multiset(t3.pmem64.children)
  {
    var t4 := Merge(t3, Mem32Pool, PMem32Pool, false);
    var t5 := Merge(t4, Mem64Pool, PMem64Pool, false);
    RetypeNoneIsIdentity(t3.pmem32.children);
    RetypeNoneIsIdentity(t4.pmem64.children);
    assert t4.mem64 == t3.mem64 && t4.pmem64 == t3.pmem64 && t5.mem32 == t4.mem32 by {
      assert t4.Get(Mem64Pool) == t4.mem64 && t4.Get(PMem64Pool) == t4.pmem64;
      assert t5.Get(Mem32Pool) == t5.mem32;
    }
    assert t5.pmem32 == t4.pmem32 && t5.pmem64.children == [] by {
      assert t5.Get(PMem32Pool) == t5.pmem32 && t5.Get(PMem64Pool) == t5.pmem64;
    }
    assert t4.pmem32.children == [] by {
      assert t4.Get(PMem32Pool) == t4.pmem32;
    }
    t5
  }

  /** The merges of DegradeResource that retype: each source pool named by a missing decode is emptied. */
  function DegradeTypes(decodes: set<Decode>, hasParent: bool, hasOprom: bool, trees: Trees): (r: Trees)
    ensures r.io == trees.io
    ensures SameRoots(trees, r)
    ensures MemCount(r) == MemCount(trees)
    ensures PMem64Decode !in decodes ==> r.pmem64.children == []
    ensures PMem32Decode !in decodes ==> r.pmem32.children == []
    ensures Mem64Decode !in decodes ==> r.mem64.children == []
    ensures !DegradesPMem64(decodes, hasParent, hasOprom, trees) ==> r.pmem64 == trees.pmem64
    ensures DegradesPMem64(decodes, hasParent, hasOprom, trees) ==> r.pmem64.children == []
    ensures multiset(r.mem64.children)
         == if Mem64Decode !in decodes then multiset{} else multiset(trees.mem64.children)
    ensures PMem32Decode !in decodes ==> multiset(r.pmem32.children) == multiset{}
    ensures PMem32Decode in decodes ==>
      multiset(r.pmem32.children)
      == multiset(trees.pmem32.children)
       + MovedAs(trees.pmem64.children, trees.pmem32.resType, DegradesPMem64(decodes, hasParent, hasOprom, trees))
    ensures multiset(r.mem32.children)
         == multiset(trees.mem32.children)
          + MovedAs(trees.mem64.children, trees.mem32.resType, Mem64Decode !in decodes)
          + MovedAs(trees.pmem32.children, trees.mem32.resType, PMem32Decode !in decodes)
          + MovedAs(trees.pmem64.children, trees.mem32.resType,
                    PMem32Decode !in decodes && DegradesPMem64(decodes, hasParent, hasOprom, trees))
  {
    var t1 := if DegradesPMem64(decodes, hasParent, hasOprom, trees)
              then Merge(trees, PMem32Pool, PMem64Pool, true) else trees;
    assert PMem64Decode !in decodes ==> t1.pmem64.children == [] by {
      assert t1.Get(PMem64Pool) == t1.pmem64;
    }
    var t2 := MergeMem64(decodes, t1);
    var t3 := MergeRest(decodes, t2);
    DegradeSteps(decodes, DegradesPMem64(decodes, hasParent, hasOprom, trees), trees, t1, t2, t3);
    t3
  }

  /** Where the three retyping merges of DegradeTypes put the Mem64 and PMem32 requests. */
  lemma DegradeSteps(decodes: set<Decode>, degrade: bool, trees: Trees, t1: Trees, t2: Trees, t3: Trees)
    requires t1 == if degrade then Merge(trees, PMem32Pool, PMem64Pool, true) else trees
    requires t2 == MergeMem64(decodes, t1) && t3 == MergeRest(decodes, t2)
    ensures multiset(t3.mem64.children)
         == if Mem64Decode !in decodes then multiset{} else multiset(trees.mem64.children)
    ensures PMem32Decode in decodes ==>
      multiset(t3.pmem32.children)
      == multiset(trees.pmem32.children) + MovedAs(trees.pmem64.children, trees.pmem32.resType, degrade)
    ensures multiset(t3.mem32.children)
         == multiset(trees.mem32.children)
          + MovedAs(trees.mem64.children, trees.mem32.resType, Mem64Decode !in decodes)
          + MovedAs(trees.pmem32.children, trees.mem32.resType, PMem32Decode !in decodes)
          + MovedAs(trees.pmem64.children, trees.mem32.resType, PMem32Decode !in decodes && degrade)
  {
    Degrade1(degrade, trees, t1);
    var t32 := trees.mem32.resType;
    assert t2.mem32.resType == t32 by {
      assert SameRoot(t1.mem32, t2.mem32);
    }
    DegradeMem32(decodes, degrade, trees, t1.pmem32.children, t2.mem32.children, t3.mem32.children);
  }

  /** The Mem32 pool after the three merges, from what each merge added to it. */
  lemma DegradeMem32(decodes: set<Decode>, degrade: bool, trees: Trees, p1: seq<Node>, m2: seq<Node>, m3: seq<Node>)
    requires multiset(p1)
          == multiset(trees.pmem32.children) + MovedAs(trees.pmem64.children, trees.pmem32.resType, degrade)
    requires multiset(m2)
          == multiset(trees.mem32.children) + MovedAs(trees.mem64.children, trees.mem32.resType, Mem64Decode !in decodes)
    requires multiset(m3) == multiset(m2) + MovedAs(p1, trees.mem32.resType, PMem32Decode !in decodes)
    ensures multiset(m3)
         == multiset(trees.mem32.children)
          + MovedAs(trees.mem64.children, trees.mem32.resType, Mem64Decode !in decodes)
          + MovedAs(trees.pmem32.children, trees.mem32.resType, PMem32Decode !in decodes)
          + MovedAs(trees.pmem64.children, trees.mem32.resType, PMem32Decode !in decodes && degrade)
  {
    var t32 := trees.mem32.resType;
    if PMem32Decode !in decodes {
      if degrade {
        RetypeMerged(p1, trees.pmem32.children, trees.pmem64.children, Some(trees.pmem32.resType), t32);
      } else {
        RetypePerm(p1, trees.pmem32.children, Some(t32));
      }
    }
  }

  /** The first merge of DegradeTypes: PMem64 into PMem32, retyped, when it degrades. */
  lemma Degrade1(degrade: bool, trees: Trees, t1: Trees)
    requires t1 == if degrade then Merge(trees, PMem32Pool, PMem64Pool, true) else trees
    ensures t1.mem32 == trees.mem32 && t1.mem64 == trees.mem64
    ensures multiset(t1.pmem32.children)
         == multiset(trees.pmem32.children) + MovedAs(trees.pmem64.children, trees.pmem32.resType, degrade)
    ensures !degrade ==> t1 == trees
  {
    assert t1.Get(Mem32Pool) == t1.mem32 && t1.Get(Mem64Pool) == t1.mem64 && t1.Get(PMem32Pool) == t1.pmem32;
  }


  /** The Mem64 requests are folded into Mem32 when the bridge has no 64-bit decode. */
  function MergeMem64(decodes: set<Decode>, t1: Trees): (t2: Trees)
    ensures t2.io == t1.io && t2.pmem64 == t1.pmem64
    ensures SameRoots(t1, t2) && MemCount(t2) == MemCount(t1)
    ensures Mem64Decode !in decodes ==> t2.mem64.children == []
    ensures Mem64Decode in decodes ==> t2 == t1
    ensures t2.pmem32 == t1.pmem32
    ensures multiset(t2.mem32.children)
         == multiset(t1.mem32.children) + MovedAs(t1.mem64.children, t1.mem32.resType, Mem64Decode !in decodes)
  {
    var t2 := if Mem64Decode !in decodes then Merge(t1, Mem32Pool, Mem64Pool, true) else t1;
    assert t2.pmem64 == t1.pmem64 by {
      assert t2.Get(PMem64Pool) == t2.pmem64;
    }
    assert Mem64Decode !in decodes ==> t2.mem64.children == [] by {
      assert t2.Get(Mem64Pool) == t2.mem64;
    }
    t2
  }

  /** The PMem32 requests are folded into Mem32 when the bridge has no prefetchable decode. */
  function MergeRest(decodes: set<Decode>, t2: Trees): (t3: Trees)
    ensures t3.io == t2.io && t3.pmem64 == t2.pmem64 && t3.mem64 == t2.mem64
    ensures SameRoots(t2, t3) && MemCount(t3) == MemCount(t2)
    ensures PMem32Decode !in decodes ==> t3.pmem32.children == []
    ensures PMem32Decode in decodes ==> t3 == t2
    ensures multiset(t3.mem32.children)
         == multiset(t2.mem32.children) + MovedAs(t2.pmem32.children, t2.mem32.resType, PMem32Decode !in decodes)
  {
    var t3 := if PMem32Decode !in decodes then Merge(t2, Mem32Pool, PMem32Pool, true) else t2;
    assert t3.pmem64 == t2.pmem64 && t3.mem64 == t2.mem64 by {
      assert t3.Get(PMem64Pool) == t3.pmem64 && t3.Get(Mem64Pool) == t3.mem64;
    }
    assert PMem32Decode !in decodes ==> t3.pmem32.children == [] by {
      assert t3.Get(PMem32Pool) == t3.pmem32;
    }
    t3
  }

  /**
   * At the time DegradeResource runs, the PMem32 root of a freshly created
   * map still has length 0 (apertures come later), so for such a root the
   * PMem64 requests are degraded only for a missing decode or an option
   * ROM; PMem32 requests alone never cause it.
   */
  lemma DegradeKeepsPMem64WithoutOprom(decodes: set<Decode>, hasParent: bool, trees: Trees)
    requires trees.pmem32.length == 0
    requires PMem64Decode in decodes && PMemMemCombine !in decodes
    ensures DegradeResource(decodes, hasParent, false, trees).pmem64 == trees.pmem64
  {
  }

  // ---------------------------------------------------------------------
  // The map of a whole bridge

  /** The parts of a PCI_IO_DEVICE that building the map reads. */
  datatype Device = Device(
    owner: Owner,
    decodes: set<Decode>,
    hasParent: bool,
    padding: Option<seq<Descriptor>>,
    children: seq<Device>)

  /** A direct child of the bridge carries an option ROM. */
  predicate HasOprom(d: Device)
  {
    exists i :: 0 <= i < |d.children| && d.children[i].owner.romSize != 0
  }

  /** The five window nodes CreateResourceMap creates for a PCI-PCI bridge. */
  function BridgeWindows(owner: Owner): (r: Trees)
    ensures forall p :: r.Get(p).children == [] && r.Get(p).length == 0 && r.Get(p).resType == PoolType(p)
  {
    Trees(
      CreateResourceNode(owner, 0, PPB_IO_ALIGNMENT, PPB_IO_RANGE, Io16, Typical),
      CreateResourceNode(owner, 0, PPB_MEM_ALIGNMENT, PPB_MEM32_RANGE, Mem32, Typical),
      CreateResourceNode(owner, 0, PPB_MEM_ALIGNMENT, PPB_PMEM32_RANGE, PMem32, Typical),
      CreateResourceNode(owner, 0, PPB_MEM_ALIGNMENT, PPB_MEM64_RANGE, Mem64, Typical),
      CreateResourceNode(owner, 0, PPB_MEM_ALIGNMENT, PPB_PMEM64_RANGE, PMem64, Typical))
  }

  /** The windows of a sub-map that hold something, as requests to the parent's pools. */
  function WindowRequests(windows: Trees): seq<(Pool, Node)>
  {
    Window(windows, IoPool) + Window(windows, Mem32Pool) + Window(windows, PMem32Pool)
    + Window(windows, Mem64Pool) + Window(windows, PMem64Pool)
  }

  /** The window of pool p as a request, if it requests anything. */
  function Window(windows: Trees, p: Pool): seq<(Pool, Node)>
  {
    if ResourceRequestExisted(windows.Get(p)) then [(p, windows.Get(p))] else []
  }

  /**
   * Each of a bridge's five windows reaches its parent's pool as one node
   * exactly when it has children or a nonzero length.
   */
  lemma WindowRequestsPick(w: Trees, p: Pool)
    ensures NodesFor(WindowRequests(w), p)
         == if ResourceRequestExisted(w.Get(p)) then [w.Get(p)] else []
  {
    var a, b, c := Window(w, IoPool), Window(w, Mem32Pool), Window(w, PMem32Pool);
    var d, e := Window(w, Mem64Pool), Window(w, PMem64Pool);
    NodesForAppend(a + b + c + d, e, p);
    NodesForAppend(a + b + c, d, p);
    NodesForAppend(a + b, c, p);
    NodesForAppend(a, b, p);
    WindowNodes(w, IoPool, p);
    WindowNodes(w, Mem32Pool, p);
    WindowNodes(w, PMem32Pool, p);
    WindowNodes(w, Mem64Pool, p);
    WindowNodes(w, PMem64Pool, p);
  }

  lemma WindowNodes(w: Trees, q: Pool, p: Pool)
    ensures NodesFor(Window(w, q), p)
         == if q == p && ResourceRequestExisted(w.Get(p)) then [w.Get(p)] else []
  {
    if ResourceRequestExisted(w.Get(q)) {
      assert Window(w, q)[1..] == [];
    }
  }

  /** The result of building a map: the five roots and the devices marked Allocated. */
  datatype MapResult = MapResult(trees: Trees, settled: set<nat>)

  /** A root whose children are pairwise disjoint and lie inside its length. */
  predicate Packed(n: Node)
  {
    && (forall i :: 0 <= i < |n.children| ==> n.children[i].offset + n.children[i].length <= n.length)
    && (forall i, j :: 0 <= i < j < |n.children| ==>
          n.children[i].offset + n.children[i].length <= n.children[j].offset)
  }

  /** A root changed only in its length, alignment and children's offsets. */
  predicate Repacked(a: Node, b: Node)
  {
    WellPacked(a.children, b.children, b.length)
    && b.(length := a.length, alignment := a.alignment, children := a.children) == a
  }

  /** Apply CalculateResourceAperture to all five roots. */
  function Apertures(trees: Trees, policy: AliasPolicy): (r: Trees)
    ensures Repacked(trees.io, r.io) && Repacked(trees.mem32, r.mem32) && Repacked(trees.pmem32, r.pmem32)
    ensures Repacked(trees.mem64, r.mem64) && Repacked(trees.pmem64, r.pmem64)
    ensures Packed(r.io) && Packed(r.mem32) && Packed(r.pmem32) && Packed(r.mem64) && Packed(r.pmem64)
  {
    Trees(Aperture(trees.io, policy), Aperture(trees.mem32, policy), Aperture(trees.pmem32, policy),
          Aperture(trees.mem64, policy), Aperture(trees.pmem64, policy))
  }

  /** CalculateResourceAperture on one root. */
  function Aperture(n: Node, policy: AliasPolicy): (r: Node)
    ensures Repacked(n, r) && Packed(r)
  {
    CalculateResourceAperture(n, policy)
  }

  /** Padding, degradation and apertures: the tail of CreateResourceMap. */
  function FinishMap(d: Device, trees: Trees, policy: AliasPolicy): (r: Trees)
    ensures Packed(r.io) && Packed(r.mem32) && Packed(r.pmem32) && Packed(r.mem64) && Packed(r.pmem64)
    ensures PMem64Decode !in d.decodes ==> r.pmem64.children == []
    ensures PMem32Decode !in d.decodes ==> r.pmem32.children == []
    ensures Mem64Decode !in d.decodes && PMemMemCombine !in d.decodes ==> r.mem64.children == []
    ensures PMemMemCombine in d.decodes ==> r.pmem32.children == [] && r.pmem64.children == []
    ensures r.io.resType == trees.io.resType && r.mem32.resType == trees.mem32.resType
    ensures r.pmem32.resType == trees.pmem32.resType && r.mem64.resType == trees.mem64.resType
    ensures r.pmem64.resType == trees.pmem64.resType
  {
    var padded := match d.padding
                  case None => trees
                  case Some(ds) => ApplyResourcePadding(d.owner, ds, trees);
    assert SameRoots(trees, padded) by {
      PaddingFrame(d, trees, padded);
    }
    var degraded := DegradeResource(d.decodes, d.hasParent, HasOprom(d), padded);
    Apertures(degraded, policy)
  }

  lemma PaddingFrame(d: Device, trees: Trees, padded: Trees)
    requires padded == match d.padding
                       case None => trees
                       case Some(ds) => ApplyResourcePadding(d.owner, ds, trees)
    ensures SameRoots(trees, padded)
  {
    if d.padding.Some? {
      var f := ApplyResourcePadding(d.owner, d.padding.value, trees);
      assert f.Get(IoPool) == f.io && f.Get(Mem32Pool) == f.mem32 && f.Get(PMem32Pool) == f.pmem32;
      assert f.Get(Mem64Pool) == f.mem64 && f.Get(PMem64Pool) == f.pmem64;
    }
  }

  /**
   * CreateResourceMap: the children's requests (and sub-maps of child
   * bridges), then padding, degradation and apertures of this bridge.
   */
  function CreateResourceMap(d: Device, trees: Trees, policy: AliasPolicy): (r: MapResult)
    ensures Packed(r.trees.io) && Packed(r.trees.mem32) && Packed(r.trees.pmem32)
    ensures Packed(r.trees.mem64) && Packed(r.trees.pmem64)
    ensures PMem64Decode !in d.decodes ==> r.trees.pmem64.children == []
    ensures PMem32Decode !in d.decodes ==> r.trees.pmem32.children == []
    ensures Mem64Decode !in d.decodes && PMemMemCombine !in d.decodes ==> r.trees.mem64.children == []
    ensures PMemMemCombine in d.decodes ==> r.trees.pmem32.children == [] && r.trees.pmem64.children == []
    ensures r.trees.io.resType == trees.io.resType && r.trees.mem32.resType == trees.mem32.resType
    ensures r.trees.pmem32.resType == trees.pmem32.resType && r.trees.mem64.resType == trees.mem64.resType
    ensures r.trees.pmem64.resType == trees.pmem64.resType
    decreases d, 1
  {
    var kids := ChildLoop(d, 0, MapResult(trees, {}), policy);
    MapResult(FinishMap(d, kids.trees, policy), kids.settled)
  }

  /** The child loop of CreateResourceMap. */
  function ChildLoop(d: Device, i: nat, acc: MapResult, policy: AliasPolicy): (r: MapResult)
    requires i <= |d.children|
    ensures SameRoots(acc.trees, r.trees)
    ensures acc.settled <= r.settled
    decreases d, 0, |d.children| - i
  {
    if i == |d.children| then acc
    else
      var c := d.children[i];
      var next := ChildStep(c, acc, CreateResourceMap(c, BridgeWindows(c.owner), policy));
      SameRootsTrans(acc.trees, next.trees, ChildLoop(d, i + 1, next, policy).trees);
      ChildLoop(d, i + 1, next, policy)
  }

  /**
   * One iteration of the child loop, given the child's own sub-map (used
   * only when the child is a PCI-PCI bridge): its BAR requests, its
   * windows, its CardBus padding.
   */
  function ChildStep(c: Device, acc: MapResult, sub: MapResult): (r: MapResult)
    ensures SameRoots(acc.trees, r.trees)
    ensures acc.settled <= r.settled
  {
    var (t1, alloc) := GetResourceFromDevice(c.owner, acc.trees);
    var settled := if alloc then acc.settled + {c.owner.id} else acc.settled;
    var t2 := if c.owner.kind == PciBridge then InsertAll(t1, WindowRequests(sub.trees)) else t1;
    var settled2 := if c.owner.kind == PciBridge then settled + sub.settled else settled;
    var t3 := if c.owner.kind == CardBus then ResourcePaddingForCardBusBridge(c.owner, t2) else t2;
    InsertAllFrame(acc.trees, t1, WindowRequests(sub.trees));
    assert SameRoots(acc.trees, t1);
    SameRootsTrans(acc.trees, t1, t2);
    SameRootsTrans(acc.trees, t2, t3);
    MapResult(t3, settled2)
  }

  /**
   * A PCI-PCI bridge child adds to each pool its own BAR requests and, when
   * the window of its sub-map requests anything, that window as one node;
   * its sub-map's settled devices join the caller's.
   */
  lemma BridgeChildContents(c: Device, acc: MapResult, sub: MapResult, p: Pool)
    requires c.owner.kind == PciBridge
    ensures multiset(ChildStep(c, acc, sub).trees.Get(p).children)
         == multiset(acc.trees.Get(p).children)
          + multiset(NodesFor(BarRequests(c.owner, false, 0), p))
          + multiset(NodesFor(BarRequests(c.owner, true, 0), p))
          + multiset(if ResourceRequestExisted(sub.trees.Get(p)) then [sub.trees.Get(p)] else [])
    ensures sub.settled <= ChildStep(c, acc, sub).settled
    ensures c.owner.id in ChildStep(c, acc, sub).settled
        <== forall i :: 0 <= i < PCI_MAX_BAR ==> BarPool(BarAt(c.owner.bars, i).barType, false).None?
  {
    var t1 := GetResourceFromDevice(c.owner, acc.trees).0;
    InsertAllContents(t1, WindowRequests(sub.trees), p);
    WindowRequestsPick(sub.trees, p);
  }

  /** A CardBus child adds its own BAR requests and the four CardBus padding windows. */
  lemma CardBusChildContents(c: Device, acc: MapResult, sub: MapResult)
    requires c.owner.kind == CardBus
    ensures var s := CardBusPadding(c.owner);
            var t1 := GetResourceFromDevice(c.owner, acc.trees).0;
            var r := ChildStep(c, acc, sub).trees;
            && multiset(r.io.children) == multiset(t1.io.children) + multiset{s[2].1, s[3].1}
            && multiset(r.mem32.children) == multiset(t1.mem32.children) + multiset{s[0].1}
            && multiset(r.pmem32.children) == multiset(t1.pmem32.children) + multiset{s[1].1}
            && r.mem64 == t1.mem64 && r.pmem64 == t1.pmem64
  {
  }

  lemma SameRootsTrans(a: Trees, b: Trees, c: Trees)
    requires SameRoots(a, b) && SameRoots(b, c)
    ensures SameRoots(a, c)
  {
  }

  lemma InsertAllFrame(a: Trees, trees: Trees, reqs: seq<(Pool, Node)>)
    requires SameRoots(a, trees)
    ensures SameRoots(a, InsertAll(trees, reqs))
  {
    InsertAllSameRoots(trees, reqs);
    SameRootsTrans(a, trees, InsertAll(trees, reqs));
  }

  /** Inserting a batch changes no root beyond its child list. */
  lemma InsertAllSameRoots(trees: Trees, reqs: seq<(Pool, Node)>)
    ensures SameRoots(trees, InsertAll(trees, reqs))
  {
    var r := InsertAll(trees, reqs);
    InsertAllRoot(trees, reqs, IoPool);
    InsertAllRoot(trees, reqs, Mem32Pool);
    InsertAllRoot(trees, reqs, PMem32Pool);
    InsertAllRoot(trees, reqs, Mem64Pool);
    InsertAllRoot(trees, reqs, PMem64Pool);
    assert r.Get(IoPool) == r.io && r.Get(Mem32Pool) == r.mem32 && r.Get(PMem32Pool) == r.pmem32;
    assert r.Get(Mem64Pool) == r.mem64 && r.Get(PMem64Pool) == r.pmem64;
  }


  /**
   * A bridge with nothing below it and no padding gets empty, zero-length
   * windows, so its parent inserts none of them.
   */
  lemma EmptyBridgeGetsNoWindow(c: Device, policy: AliasPolicy)
    requires c.children == [] && c.padding.None?
    ensures WindowRequests(CreateResourceMap(c, BridgeWindows(c.owner), policy).trees) == []
  {
    var w := BridgeWindows(c.owner);
    assert w.Get(IoPool) == w.io && w.Get(Mem32Pool) == w.mem32 && w.Get(PMem32Pool) == w.pmem32;
    assert w.Get(Mem64Pool) == w.mem64 && w.Get(PMem64Pool) == w.pmem64;
    LeafMap(c, w, policy);
    DegradeBare(c.decodes, c.hasParent, HasOprom(c), w);
    BareApertures(DegradeResource(c.decodes, c.hasParent, HasOprom(c), w), policy);
  }

  /** A device with no children and no padding only degrades and packs its roots. */
  lemma LeafMap(c: Device, w: Trees, policy: AliasPolicy)
    requires c.children == [] && c.padding.None?
    ensures CreateResourceMap(c, w, policy).trees
         == Apertures(DegradeResource(c.decodes, c.hasParent, HasOprom(c), w), policy)
  {
    assert ChildLoop(c, 0, MapResult(w, {}), policy).trees == w;
  }

  /** Empty roots pack to windows that request nothing. */
  lemma BareApertures(t: Trees, policy: AliasPolicy)
    requires AllBare(t)
    ensures WindowRequests(Apertures(t, policy)) == []
  {
    EmptyAperture(t.io, policy);
    EmptyAperture(t.mem32, policy);
    EmptyAperture(t.pmem32, policy);
    EmptyAperture(t.mem64, policy);
    EmptyAperture(t.pmem64, policy);
    var a := Apertures(t, policy);
    assert Window(a, IoPool) == [] && Window(a, Mem32Pool) == [] && Window(a, PMem32Pool) == [];
    assert Window(a, Mem64Pool) == [] && Window(a, PMem64Pool) == [];
  }

  /** All five roots without children and with length 0. */
  predicate AllBare(t: Trees)
  {
    && t.io.children == [] && t.io.length == 0
    && t.mem32.children == [] && t.mem32.length == 0
    && t.pmem32.children == [] && t.pmem32.length == 0
    && t.mem64.children == [] && t.mem64.length == 0
    && t.pmem64.children == [] && t.pmem64.length == 0
  }

  /** Degrading empty roots leaves them empty. */
  lemma DegradeBare(decodes: set<Decode>, hasParent: bool, hasOprom: bool, t: Trees)
    requires AllBare(t)
    ensures AllBare(DegradeResource(decodes, hasParent, hasOprom, t))
  {
    var r := DegradeResource(decodes, hasParent, hasOprom, t);
    assert MemCount(r) == 0;
    assert SameRoots(t, r);
  }

  /** A root with no children and length 0 packs to length 0. */
  lemma EmptyAperture(n: Node, policy: AliasPolicy)
    requires n.children == [] && n.length == 0
    ensures !ResourceRequestExisted(CalculateResourceAperture(n, policy))
  {
    assert Pack([], 0, Plain).1 == 0;
    assert RoundUp(0, n.alignment) == 0;
  }

  // ---------------------------------------------------------------------
  // Looking a device's windows up again

  /** The zeroed device pointer of a pool root. */
  const NoOwner: Owner := Owner(0, Endpoint, [], [], 0)

  /** InitializeResourcePool: an empty root of the given type, owned by no device. */
  function InitializeResourcePool(resType: BarType): (r: Node)
    ensures r.resType == resType && r.owner == NoOwner
    ensures !ResourceRequestExisted(r)
  {
    Node(NoOwner, 0, 0, 0, 0, resType, Typical, false, [])
  }

  /** The index of the last child owned by device `id`. */
  predicate IsLastOwned(kids: seq<Node>, id: nat, k: int)
  {
    0 <= k < |kids| && kids[k].owner.id == id && forall j :: k < j < |kids| ==> kids[j].owner.id != id
  }

  /**
   * One loop of GetResourceMap: the LAST child owned by device `id`, or
   * the caller's value when no child is.
   */
  function LastOwnedBy(kids: seq<Node>, id: nat, current: Node): (r: Node)
    ensures LookedUp(kids, id, current, r)
    decreases |kids|
  {
    if kids == [] then current
    else
      var next := if kids[0].owner.id == id then kids[0] else current;
      var r := LastOwnedBy(kids[1..], id, next);
      LastOwnedByStep(kids, id, current, r);
      r
  }

  lemma LastOwnedByStep(kids: seq<Node>, id: nat, current: Node, r: Node)
    requires kids != []
    requires var next := if kids[0].owner.id == id then kids[0] else current;
             && ((forall i :: 0 <= i < |kids[1..]| ==> kids[1..][i].owner.id != id) ==> r == next)
             && ((exists i :: 0 <= i < |kids[1..]| && kids[1..][i].owner.id == id) ==>
                   exists k :: IsLastOwned(kids[1..], id, k) && r == kids[1..][k])
    ensures (forall i :: 0 <= i < |kids| ==> kids[i].owner.id != id) ==> r == current
    ensures (exists i :: 0 <= i < |kids| && kids[i].owner.id == id) ==>
              exists k :: IsLastOwned(kids, id, k) && r == kids[k]
  {
    var tail := kids[1..];
    if exists i :: 0 <= i < |tail| && tail[i].owner.id == id {
      var k :| IsLastOwned(tail, id, k) && r == tail[k];
      assert kids[k + 1] == tail[k];
      forall j | k + 1 < j < |kids|
        ensures kids[j].owner.id != id
      {
        assert kids[j] == tail[j - 1];
      }
      assert IsLastOwned(kids, id, k + 1);
    } else if kids[0].owner.id == id {
      forall j | 0 < j < |kids|
        ensures kids[j].owner.id != id
      {
        assert kids[j] == tail[j - 1];
      }
      assert IsLastOwned(kids, id, 0);
    } else {
      forall i | 0 <= i < |kids|
        ensures kids[i].owner.id != id
      {
        if i > 0 {
          assert kids[i] == tail[i - 1];
        }
      }
    }
  }

  /**
   * What GetResourceMap leaves in one output: the last child owned by the
   * device when there is one, else the caller's value.
   */
  predicate LookedUp(kids: seq<Node>, id: nat, current: Node, r: Node)
  {
    && ((forall i :: 0 <= i < |kids| ==> kids[i].owner.id != id) ==> r == current)
    && ((exists i :: 0 <= i < |kids| && kids[i].owner.id == id) ==>
          exists k :: 0 <= k < |kids| && IsLastOwned(kids, id, k) && r == kids[k])
  }

  /** GetResourceMap: the windows of device `id` in each of the five pools. */
  function GetResourceMap(id: nat, pools: Trees, current: Trees): (r: Trees)
    ensures LookedUp(pools.io.children, id, current.io, r.io)
    ensures LookedUp(pools.mem32.children, id, current.mem32, r.mem32)
    ensures LookedUp(pools.pmem32.children, id, current.pmem32, r.pmem32)
    ensures LookedUp(pools.mem64.children, id, current.mem64, r.mem64)
    ensures LookedUp(pools.pmem64.children, id, current.pmem64, r.pmem64)
  {
    Trees(
      LastOwnedBy(pools.io.children, id, current.io),
      LastOwnedBy(pools.mem32.children, id, current.mem32),
      LastOwnedBy(pools.pmem32.children, id, current.pmem32),
      LastOwnedBy(pools.mem64.children, id, current.mem64),
      LastOwnedBy(pools.pmem64.children, id, current.pmem64))
  }
}
