/**
 * The PCI resource tree of the PCI bus driver and the three operations that
 * shape it: sorted insertion of a request, merging one tree into another
 * (with optional retyping) and greedy aperture packing.
 *
 * A resource node is a request for a window of one resource type. Children
 * are kept in a list ordered by decreasing alignment; packing walks that list
 * and gives every child an offset inside the parent's window.
 *
 * Apertures are unbounded naturals here: the driver keeps them in UINT64 and
 * never expects them to wrap.
 */
module PciTree {
  import opened Bits
  import opened Efi

  /** PCI_BAR_TYPE, restricted to the values the resource code distinguishes. */
  datatype BarType = Unknown | Io16 | Io32 | Mem32 | PMem32 | Mem64 | PMem64

  /** The header type of the device that owns a request. */
  datatype DeviceKind = Endpoint | PciBridge | CardBus

  /** PCI_RESOURCE_USAGE: a real BAR request or padding reserved for later. */
  datatype Usage = Typical | Padding

  /** One entry of a device's PciBar / VfPciBar table. */
  datatype BarInfo = BarInfo(barType: BarType, length: nat, alignment: nat, regOffset: nat)

  /** The parts of a PCI_IO_DEVICE that a resource node refers back to. */
  datatype Owner = Owner(
    id: nat,
    kind: DeviceKind,
    bars: seq<BarInfo>,
    vfBars: seq<BarInfo>,
    romSize: nat)

  /** PCI_RESOURCE_NODE. `alignment` is a mask: 2^n - 1 for real requests. */
  datatype Node = Node(
    owner: Owner,
    length: nat,
    alignment: nat,
    offset: nat,
    bar: nat,
    resType: BarType,
    usage: Usage,
    isVirtual: bool,
    children: seq<Node>)

  /** CreateResourceNode: a fresh node with no children and offset 0. */
  function CreateResourceNode(owner: Owner, length: nat, alignment: nat, bar: nat,
                              resType: BarType, usage: Usage): (r: Node)
    ensures r.children == [] && r.offset == 0 && !r.isVirtual
    ensures r.length == length && r.alignment == alignment && r.bar == bar
    ensures r.resType == resType && r.usage == usage && r.owner == owner
  {
    Node(owner, length, alignment, 0, bar, resType, usage, false, [])
  }

  /** CreateVfResourceNode: the same, marked as an SR-IOV virtual-function request. */
  function CreateVfResourceNode(owner: Owner, length: nat, alignment: nat, bar: nat,
                                resType: BarType, usage: Usage): (r: Node)
    ensures r.isVirtual && r.children == [] && r.offset == 0
    ensures r.length == length && r.alignment == alignment && r.bar == bar
    ensures r.resType == resType && r.usage == usage && r.owner == owner
  {
    CreateResourceNode(owner, length, alignment, bar, resType, usage).(isVirtual := true)
  }

  /** ResourceRequestExisted: the node has children or a length of its own. */
  predicate ResourceRequestExisted(n: Node)
  {
    n.children != [] || n.length != 0
  }

  // ---------------------------------------------------------------------
  // Sorted insertion

  /** Children ordered by non-increasing alignment. */
  predicate Descending(kids: seq<Node>)
  {
    forall i, j :: 0 <= i < j < |kids| ==> kids[i].alignment >= kids[j].alignment
  }

  /** `Length & Alignment`: the part of the length below the alignment. */
  function AlignRest(n: Node): nat
  {
    And(n.length, n.alignment)
  }

  /**
   * The insertion loop stops in front of sibling `t` when the new node is
   * more strictly aligned, or equally aligned and its rest is 0 or at least
   * the sibling's.
   */
  predicate StopsBefore(n: Node, t: Node)
  {
    n.alignment > t.alignment
    || (n.alignment == t.alignment && (AlignRest(n) == 0 || AlignRest(n) >= AlignRest(t)))
  }

  /** The index in front of which the insertion loop stops. */
  function InsertionPoint(kids: seq<Node>, n: Node): (k: nat)
    ensures k <= |kids|
    ensures forall j :: 0 <= j < k ==> !StopsBefore(n, kids[j])
    ensures k < |kids| ==> StopsBefore(n, kids[k])
  {
    if kids == [] || StopsBefore(n, kids[0]) then 0
    else 1 + InsertionPoint(kids[1..], n)
  }

  /**
   * InsertResourceNode on a child list: put `n` at the head and swap it
   * past every sibling in front of which it does not stop.
   */
  function InsertSorted(kids: seq<Node>, n: Node): (r: seq<Node>)
    ensures r == kids[..InsertionPoint(kids, n)] + [n] + kids[InsertionPoint(kids, n)..]
  {
    if kids == [] || StopsBefore(n, kids[0]) then [n] + kids
    else [kids[0]] + InsertSorted(kids[1..], n)
  }

  /** InsertResourceNode: add `n` to the bridge's children. */
  function InsertResourceNode(bridge: Node, n: Node): (r: Node)
    ensures |r.children| == |bridge.children| + 1
    ensures multiset(r.children) == multiset(bridge.children) + multiset{n}
    ensures r.(children := bridge.children) == bridge
    ensures Descending(bridge.children) ==> Descending(r.children)
  {
    var k := InsertionPoint(bridge.children, n);
    InsertSortedMultiset(bridge.children, n);
    InsertKeepsDescending(bridge.children, n);
    bridge.(children := InsertSorted(bridge.children, n))
  }

  lemma InsertSortedMultiset(kids: seq<Node>, n: Node)
    ensures multiset(InsertSorted(kids, n)) == multiset(kids) + multiset{n}
  {
    var k := InsertionPoint(kids, n);
    var a, b := kids[..k], kids[k..];
    assert kids == a + b;
    assert multiset(kids) == multiset(a) + multiset(b);
    assert multiset(a + [n] + b) == multiset(a + [n]) + multiset(b);
    assert multiset(a + [n]) == multiset(a) + multiset{n};
  }

  /** Insertion keeps a non-increasing child list non-increasing. */
  lemma InsertKeepsDescending(kids: seq<Node>, n: Node)
    ensures Descending(kids) ==> Descending(InsertSorted(kids, n))
  {
    if !Descending(kids) {
      return;
    }
    var k := InsertionPoint(kids, n);
    var r := InsertSorted(kids, n);
    forall i, j | 0 <= i < j < |r|
      ensures r[i].alignment >= r[j].alignment
    {
      if i < k && j == k {
        assert !StopsBefore(n, kids[i]);
      } else if i == k && j > k {
        assert StopsBefore(n, kids[k]);
        assert kids[k].alignment >= kids[j - 1].alignment;
      } else if i < k && j > k {
        assert kids[i].alignment >= kids[j - 1].alignment;
      }
    }
  }

  /**
   * Ties are broken by insertion order: a node whose rest is 0 goes in front
   * of every equally aligned sibling, so of two such nodes the one inserted
   * last comes first.
   */
  lemma {:induction false} TieGoesToLastInserted(kids: seq<Node>, a: Node, b: Node)
    requires a.alignment == b.alignment && AlignRest(b) == 0
    ensures var r := InsertSorted(InsertSorted(kids, a), b);
            var i := InsertionPoint(InsertSorted(kids, a), b);
            var j := InsertionPoint(kids, a) + 1;
            i < j < |r| && r[i] == b && r[j] == a
  {
    var ka := InsertionPoint(kids, a);
    var s := InsertSorted(kids, a);
    assert s == kids[..ka] + [a] + kids[ka..];
    assert s[ka] == a;
    assert StopsBefore(b, a);
    var kb := InsertionPoint(s, b);
    assert kb <= ka;
    var r := InsertSorted(s, b);
    assert r == s[..kb] + [b] + s[kb..];
    assert r[kb] == b;
    assert r[ka + 1] == s[ka];
  }

  // ---------------------------------------------------------------------
  // Merging

  /** With TypeMerge the moved node takes the destination's type. */
  function Retype(n: Node, newType: Option<BarType>): Node
  {
    match newType
    case None => n
    case Some(t) => n.(resType := t)
  }

  function RetypeAll(src: seq<Node>, newType: Option<BarType>): (r: seq<Node>)
    ensures |r| == |src|
  {
    seq(|src|, i requires 0 <= i < |src| => Retype(src[i], newType))
  }

  /**
   * The MergeResourceTree loop on child lists: repeatedly take the head of
   * the source, retype it, and insert it into the destination.
   */
  function MergeChildren(dst: seq<Node>, src: seq<Node>, newType: Option<BarType>): (r: seq<Node>)
    ensures |r| == |dst| + |src|
    ensures multiset(r) == multiset(dst) + multiset(RetypeAll(src, newType))
    ensures Descending(dst) ==> Descending(r)
    decreases |src|
  {
    if src == [] then dst
    else
      var moved := Retype(src[0], newType);
      InsertSortedMultiset(dst, moved);
      InsertKeepsDescending(dst, moved);
      assert RetypeAll(src, newType) == [moved] + RetypeAll(src[1..], newType);
      MergeChildren(InsertSorted(dst, moved), src[1..], newType)
  }

  /**
   * MergeResourceTree: move every child of `res` under `dst`. The pair
   * returned is (new destination, new source).
   */
  function MergeResourceTree(dst: Node, res: Node, typeMerge: bool): (r: (Node, Node))
    ensures r.1 == res.(children := [])
    ensures r.0.(children := dst.children) == dst
    ensures multiset(r.0.children)
         == multiset(dst.children)
          + multiset(RetypeAll(res.children, if typeMerge then Some(dst.resType) else None))
    ensures Descending(dst.children) ==> Descending(r.0.children)
    ensures res.children == [] ==> r.0 == dst
  {
    var t := if typeMerge then Some(dst.resType) else None;
    (dst.(children := MergeChildren(dst.children, res.children, t)), res.(children := []))
  }

  /** Without TypeMerge the moved nodes keep their own types. */
  lemma RetypeNoneIsIdentity(src: seq<Node>)
    ensures RetypeAll(src, None) == src
  {
  }

  /** Retyping distributes over concatenation. */
  lemma RetypeAppend(a: seq<Node>, b: seq<Node>, newType: Option<BarType>)
    ensures RetypeAll(a + b, newType) == RetypeAll(a, newType) + RetypeAll(b, newType)
  {
  }

  /** Retyping twice is retyping once, to the second type. */
  lemma RetypeTwice(a: seq<Node>, first: Option<BarType>, t: BarType)
    ensures RetypeAll(RetypeAll(a, first), Some(t)) == RetypeAll(a, Some(t))
  {
  }

  /** The retyped requests depend only on the multiset of requests, not on their order. */
  lemma {:induction false} RetypePerm(a: seq<Node>, b: seq<Node>, newType: Option<BarType>)
    requires multiset(a) == multiset(b)
    ensures multiset(RetypeAll(a, newType)) == multiset(RetypeAll(b, newType))
    decreases |a|
  {
    if a != [] {
      var x := a[0];
      assert x in multiset(b);
      var j :| 0 <= j < |b| && b[j] == x;
      var rest := b[..j] + b[j + 1..];
      assert b == b[..j] + [x] + b[j + 1..];
      assert a == [x] + a[1..];
      assert multiset(b) == multiset(b[..j]) + multiset{x} + multiset(b[j + 1..]);
      assert multiset(rest) == multiset(b[..j]) + multiset(b[j + 1..]);
      assert multiset(a) == multiset{x} + multiset(a[1..]);
      assert multiset(a[1..]) == multiset(a) - multiset{x};
      assert multiset(rest) == multiset(b) - multiset{x};
      RetypePerm(a[1..], rest, newType);
      RetypeAppend([x], a[1..], newType);
      RetypeAppend(b[..j] + [x], b[j + 1..], newType);
      RetypeAppend(b[..j], [x], newType);
      RetypeAppend(b[..j], b[j + 1..], newType);
    } else {
      assert |b| == |multiset(b)| == 0;
    }
  }

  /**
   * Requests that were merged in once and are then moved on to a pool of
   * type t end up there as the original requests retyped to t.
   */
  lemma RetypeMerged(a: seq<Node>, b: seq<Node>, c: seq<Node>, first: Option<BarType>, t: BarType)
    requires multiset(a) == multiset(b) + multiset(RetypeAll(c, first))
    ensures multiset(RetypeAll(a, Some(t)))
         == multiset(RetypeAll(b, Some(t))) + multiset(RetypeAll(c, Some(t)))
  {
    RetypePerm(a, b + RetypeAll(c, first), Some(t));
    RetypeAppend(b, RetypeAll(c, first), Some(t));
    RetypeTwice(c, first, t);
  }

  /** With TypeMerge every moved node ends up with the destination's type. */
  lemma RetypeSomeSetsType(src: seq<Node>, t: BarType)
    ensures forall x | x in multiset(RetypeAll(src, Some(t))) :: x.resType == t
  {
    forall x | x in multiset(RetypeAll(src, Some(t)))
      ensures x.resType == t
    {
      assert x in RetypeAll(src, Some(t));
    }
  }

  // ---------------------------------------------------------------------
  // Packing

  /**
   * The driver's alignment step: `Offset = Aperture & Alignment`, and if
   * it is nonzero, `Aperture + Alignment + 1 - Offset`.
   */
  function RoundUp(ap: nat, alignment: nat): (r: nat)
    ensures ap <= r <= ap + alignment
    ensures IsPow2(alignment + 1) ==> r % (alignment + 1) == 0
  {
    var off := And(ap, alignment);
    AndBound(ap, alignment);
    var r := if off != 0 then ap + alignment + 1 - off else ap;
    RoundUpAligned(ap, alignment, r);
    r
  }

  lemma RoundUpAligned(ap: nat, alignment: nat, r: nat)
    requires r == if And(ap, alignment) != 0 then ap + alignment + 1 - And(ap, alignment) else ap
    ensures IsPow2(alignment + 1) ==> r % (alignment + 1) == 0
  {
    if IsPow2(alignment + 1) {
      AndMaskMod(ap, alignment);
      if And(ap, alignment) != 0 {
        NextMultiple(ap, alignment + 1);
      }
    }
  }

  /** Adding `d - x % d` to x reaches the next multiple of d. */
  lemma NextMultiple(x: nat, d: nat)
    requires d > 0
    ensures (x + d - x % d) % d == 0
  {
    var q, m := x / d, x % d;
    assert x == d * q + m;
    assert d * (q + 1) == d * q + d;
    DivModUnique(x + d - m, d, q + 1, 0);
  }

  // ---------------------------------------------------------------------
  // ISA / VGA alias skips

  /** Bits 10..15 of an ISA I/O address are not decoded: aliases repeat every 1 KiB. */
  const ALIAS_MASK: nat := 0x3FF
  /** ISA aliasing: only the first 0x100 bytes of every 1 KiB block are usable. */
  const ISABASE: nat := 0x100
  const ISALIMIT: nat := 0x3FF
  /** VGA aliasing: 0x3B0..0x3DF of every 1 KiB block belongs to VGA. */
  const VGABASE1: nat := 0x3B0
  const VGALIMIT2: nat := 0x3DF

  /** The platform policy bits EFI_RESERVE_ISA_IO_ALIAS / EFI_RESERVE_VGA_IO_ALIAS. */
  datatype AliasPolicy = AliasPolicy(isaEnable: bool, vgaEnable: bool)

  /** `(Start + Length - 1) & 0x3FF` with UINT64 wrap-around. */
  function LimitOffset(start: nat, length: nat): nat
  {
    And(Trunc(start + length - 1, 64), ALIAS_MASK)
  }

  /** The offset of an address inside its 1 KiB alias block. */
  lemma BlockOffset(start: nat)
    ensures And(start, ALIAS_MASK) == start % 0x400
    ensures start == 0x400 * (start / 0x400) + start % 0x400
    ensures start % 0x400 <= start && start % 0x400 < 0x400
  {
    Pow2Values();
    AndLowMask(start, 10);
    AndBound(start, ALIAS_MASK);
  }

  /**
   * SkipIsaAliasAperture: when the range's last byte falls in the aliased
   * part of its 1 KiB block, move the start to the next block.
   */
  function SkipIsaAliasAperture(start: nat, length: nat): (r: nat)
    ensures LimitOffset(start, length) < ISABASE ==> r == start
    ensures LimitOffset(start, length) >= ISABASE ==>
              start < r <= start + 0x400 && r % 0x400 == 0
  {
    BlockOffset(start);
    if LimitOffset(start, length) >= ISABASE then
      var r := start - And(start, ALIAS_MASK) + ISALIMIT + 1;
      assert r == 0x400 * (start / 0x400 + 1);
      DivModUnique(r, 0x400, start / 0x400 + 1, 0);
      r
    else start
  }

  /**
   * SkipVGAAperture as written: when the range's last byte is at or above
   * 0x3B0 in its block, restart at offset 0x3E0 of the block the range
   * starts in, even if the start was already past 0x3E0.
   */
  function SkipVgaAperture(start: nat, length: nat): (r: nat)
    ensures LimitOffset(start, length) < VGABASE1 ==> r == start
    ensures LimitOffset(start, length) >= VGABASE1 ==>
              r == 0x400 * (start / 0x400) + VGALIMIT2 + 1
  {
    BlockOffset(start);
    if LimitOffset(start, length) >= VGABASE1 then
      start - And(start, ALIAS_MASK) + VGALIMIT2 + 1
    else start
  }

  /**
   * SkipVGAAperture corrected: the same move, but only when it is a move
   * forward; a start already past 0x3DF in its block is left alone.
   */
  function SkipVgaApertureFixed(start: nat, length: nat): (r: nat)
    ensures r >= start
    ensures start % 0x400 <= VGALIMIT2 ==> r == SkipVgaAperture(start, length)
    ensures start % 0x400 > VGALIMIT2 ==> r == start
  {
    BlockOffset(start);
    if And(start, ALIAS_MASK) <= VGALIMIT2 then SkipVgaAperture(start, length) else start
  }

  /**
   * The as-written VGA skip moves the start backwards exactly when the
   * start is already past 0x3E0 in its block and the range's last byte is
   * at or above 0x3B0 in its block.
   */
  lemma SkipVgaBackwards(start: nat, length: nat)
    ensures SkipVgaAperture(start, length) < start
        <==> LimitOffset(start, length) >= VGABASE1 && start % 0x400 > VGALIMIT2 + 1
  {
    BlockOffset(start);
  }

  // ---------------------------------------------------------------------
  // Packing

  /**
   * How a packer picks a child's offset from the running aperture: plain
   * alignment (CalculateResourceAperture), or alignment plus the alias
   * skips of CalculateApertureIo16. `fixVga` selects the corrected VGA skip.
   */
  datatype Placement = Plain | Io16Skip(policy: AliasPolicy, fixVga: bool)

  /** Placements that never put a child in front of the running aperture. */
  predicate Forward(pl: Placement)
  {
    pl.Plain? || pl.fixVga
  }

  /**
   * The offset a child gets: aligned, then, for an IO16 child whose owner
   * is not a bridge and when the policy asks for it, moved past the ISA
   * (preferred) or VGA alias range and aligned again.
   */
  function Place(pl: Placement, ap: nat, n: Node): (r: nat)
    ensures IsPow2(n.alignment + 1) ==> r % (n.alignment + 1) == 0
    ensures Forward(pl) ==> ap <= r
  {
    var a := RoundUp(ap, n.alignment);
    match pl
    case Plain => a
    case Io16Skip(policy, fixVga) =>
      if (policy.isaEnable || policy.vgaEnable) && n.owner.kind == Endpoint then
        if policy.isaEnable then RoundUp(SkipIsaAliasAperture(a, n.length), n.alignment)
        else if fixVga then RoundUp(SkipVgaApertureFixed(a, n.length), n.alignment)
        else RoundUp(SkipVgaAperture(a, n.length), n.alignment)
      else a
  }

  /**
   * The child loop of both aperture calculations: place each child, then
   * advance the aperture past it. Returns the packed children and the
   * final aperture.
   */
  function Pack(kids: seq<Node>, ap: nat, pl: Placement): (r: (seq<Node>, nat))
    ensures |r.0| == |kids|
    ensures forall i :: 0 <= i < |kids| ==> r.0[i] == kids[i].(offset := r.0[i].offset)
    decreases |kids|
  {
    if kids == [] then ([], ap)
    else
      var start := Place(pl, ap, kids[0]);
      var rest := Pack(kids[1..], start + kids[0].length, pl);
      ([kids[0].(offset := start)] + rest.0, rest.1)
  }

  /** Where the previous child ends: the running aperture in front of child i. */
  function PrevEnd(packed: seq<Node>, ap: nat, i: nat): nat
    requires i <= |packed|
  {
    if i == 0 then ap else packed[i - 1].offset + packed[i - 1].length
  }

  /** Every child sits where Place puts it given the end of its predecessor. */
  lemma {:induction false} PackPlaces(kids: seq<Node>, ap: nat, pl: Placement)
    ensures var r := Pack(kids, ap, pl);
            && (forall i :: 0 <= i < |kids| ==> r.0[i].offset == Place(pl, PrevEnd(r.0, ap, i), kids[i]))
            && r.1 == PrevEnd(r.0, ap, |kids|)
    decreases |kids|
  {
    if kids != [] {
      var start := Place(pl, ap, kids[0]);
      var ap' := start + kids[0].length;
      var rest := Pack(kids[1..], ap', pl);
      PackPlaces(kids[1..], ap', pl);
      var r := Pack(kids, ap, pl);
      assert r == ([kids[0].(offset := start)] + rest.0, rest.1);
      var p := r.0;
      forall i | 1 <= i <= |kids|
        ensures PrevEnd(p, ap, i) == PrevEnd(rest.0, ap', i - 1)
      {
        if i > 1 {
          assert p[i - 1] == rest.0[i - 2];
        }
      }
      forall i | 0 <= i < |kids|
        ensures p[i].offset == Place(pl, PrevEnd(p, ap, i), kids[i])
      {
        if i > 0 {
          assert p[i] == rest.0[i - 1];
          assert kids[i] == kids[1..][i - 1];
        }
      }
    }
  }

  /** Packed children are aligned to their own alignment. */
  lemma PackAligned(kids: seq<Node>, ap: nat, pl: Placement)
    ensures var p := Pack(kids, ap, pl).0;
            forall i :: 0 <= i < |kids| && IsPow2(kids[i].alignment + 1) ==>
              p[i].offset % (kids[i].alignment + 1) == 0
  {
    PackPlaces(kids, ap, pl);
  }

  /**
   * With a forward placement, packed siblings never overlap, all of them
   * lie in [ap, final aperture), and the final aperture is not below ap.
   */
  lemma PackDisjoint(kids: seq<Node>, ap: nat, pl: Placement)
    requires Forward(pl)
    ensures var r := Pack(kids, ap, pl);
            && (forall i, j :: 0 <= i < j < |r.0| ==> r.0[i].offset + r.0[i].length <= r.0[j].offset)
            && (forall i :: 0 <= i < |r.0| ==> ap <= r.0[i].offset && r.0[i].offset + r.0[i].length <= r.1)
            && ap <= r.1
  {
    var r := Pack(kids, ap, pl);
    var p := r.0;
    PackEnd(kids, ap, pl);
    PackForward(kids, ap, pl);
    forall i, j | 0 <= i < j < |p|
      ensures p[i].offset + p[i].length <= p[j].offset
    {
      PrevEndMonotone(p, ap, i, j);
      assert PrevEnd(p, ap, j) <= p[j].offset;
    }
    forall i | 0 <= i < |p|
      ensures ap <= p[i].offset && p[i].offset + p[i].length <= r.1
    {
      PrevEndMonotone(p, ap, i, |p|);
      assert PrevEnd(p, ap, 0) <= p[0].offset;
      if i > 0 {
        PrevEndMonotone(p, ap, 0, i);
        assert PrevEnd(p, ap, i) <= p[i].offset;
      }
    }
    if |p| > 0 {
      PrevEndMonotone(p, ap, 0, |p|);
      assert PrevEnd(p, ap, 0) <= p[0].offset;
    }
  }

  /** The final aperture is where the last packed child ends. */
  lemma PackEnd(kids: seq<Node>, ap: nat, pl: Placement)
    ensures var r := Pack(kids, ap, pl);
            r.1 == PrevEnd(r.0, ap, |kids|)
  {
    PackPlaces(kids, ap, pl);
  }

  /** A forward placement puts every child at or after its predecessor's end. */
  lemma PackForward(kids: seq<Node>, ap: nat, pl: Placement)
    requires Forward(pl)
    ensures var p := Pack(kids, ap, pl).0;
            forall k :: 0 <= k < |p| ==> PrevEnd(p, ap, k) <= p[k].offset
  {
    var p := Pack(kids, ap, pl).0;
    PackPlaces(kids, ap, pl);
    forall k | 0 <= k < |p|
      ensures PrevEnd(p, ap, k) <= p[k].offset
    {
      var e := PrevEnd(p, ap, k);
      assert p[k].offset == Place(pl, e, kids[k]);
    }
  }

  /** In a packed list, the end of child i is at most the start of any later child. */
  lemma {:induction false} PrevEndMonotone(p: seq<Node>, ap: nat, i: nat, j: nat)
    requires i < j <= |p|
    requires forall k :: 0 <= k < |p| ==> PrevEnd(p, ap, k) <= p[k].offset
    ensures p[i].offset + p[i].length <= PrevEnd(p, ap, j)
    decreases j - i
  {
    if j > i + 1 {
      PrevEndMonotone(p, ap, i, j - 1);
      assert PrevEnd(p, ap, j - 1) <= p[j - 1].offset;
    }
  }

  /**
   * The as-written VGA skip leaves child n where the corrected one would:
   * it is not applied (ISA aliasing preferred, no VGA aliasing, or a bridge's
   * request), or it does not move the aligned start backwards.
   */
  predicate VgaSkipHarmless(policy: AliasPolicy, ap: nat, n: Node)
  {
    var a := RoundUp(ap, n.alignment);
    policy.isaEnable || !policy.vgaEnable || n.owner.kind != Endpoint
    || SkipVgaAperture(a, n.length) >= a
  }

  /** Every child of a packing from `ap` meets VgaSkipHarmless at its turn. */
  predicate NoBackwardVgaSkip(kids: seq<Node>, ap: nat, policy: AliasPolicy)
    decreases |kids|
  {
    kids == []
    || (&& VgaSkipHarmless(policy, ap, kids[0])
        && NoBackwardVgaSkip(kids[1..], Place(Io16Skip(policy, false), ap, kids[0]) + kids[0].length, policy))
  }

  /** Where the as-written skip does not move backwards, both skips place a child alike. */
  lemma PlaceAgrees(policy: AliasPolicy, ap: nat, n: Node)
    requires VgaSkipHarmless(policy, ap, n)
    ensures Place(Io16Skip(policy, false), ap, n) == Place(Io16Skip(policy, true), ap, n)
  {
    var a := RoundUp(ap, n.alignment);
    SkipVgaBackwards(a, n.length);
  }

  /**
   * A packing whose children never meet the backwards move comes out the
   * same with the as-written skip as with the corrected one.
   */
  lemma {:induction false} PackAgrees(kids: seq<Node>, ap: nat, policy: AliasPolicy)
    requires NoBackwardVgaSkip(kids, ap, policy)
    ensures Pack(kids, ap, Io16Skip(policy, false)) == Pack(kids, ap, Io16Skip(policy, true))
    decreases |kids|
  {
    if kids != [] {
      PlaceAgrees(policy, ap, kids[0]);
      var start := Place(Io16Skip(policy, false), ap, kids[0]);
      PackAgrees(kids[1..], start + kids[0].length, policy);
    }
  }

  /**
   * Without VGA-only aliasing (ISA aliasing preferred, or no aliasing
   * reserved) the two skips never differ.
   */
  lemma {:induction false} PackAgreesWithoutVga(kids: seq<Node>, ap: nat, policy: AliasPolicy)
    requires policy.isaEnable || !policy.vgaEnable
    ensures NoBackwardVgaSkip(kids, ap, policy)
    ensures Pack(kids, ap, Io16Skip(policy, false)) == Pack(kids, ap, Io16Skip(policy, true))
    decreases |kids|
  {
    if kids != [] {
      var start := Place(Io16Skip(policy, false), ap, kids[0]);
      PackAgreesWithoutVga(kids[1..], start + kids[0].length, policy);
    }
    PackAgrees(kids, ap, policy);
  }

  /**
   * The VGA skip as written can place two siblings on top of each other.
   * With VGA aliasing reserved, three device-owned IO16 requests of
   * alignment 0xF and lengths 0x3B0, 0x10, 0x10 packed from 0: the second
   * is pushed to 0x3E0 and ends at 0x3F0; the third's range 0x3F0..0x3FF
   * reaches past 0x3B0, so it is pulled BACK to 0x3E0 as well.
   */
  lemma VgaSkipOverlapAsWritten()
    ensures var r := Pack(VgaOverlapKids(), 0, Io16Skip(AliasPolicy(false, true), false)).0;
            r[1].offset == 0x3E0 && r[2].offset == 0x3E0 && r[1].length == 0x10
  {
    var kids := VgaOverlapKids();
    var pl := Io16Skip(AliasPolicy(false, true), false);
    var r := Pack(kids, 0, pl).0;
    PackPlaces(kids, 0, pl);
    PlaceUnskipped(pl, kids[0]);
    PlaceSkipped(pl, 0x3B0, kids[1]);
    PlaceSkipped(pl, 0x3F0, kids[2]);
    assert r[0].offset == 0;
    assert PrevEnd(r, 0, 1) == 0x3B0;
    assert r[1].offset == 0x3E0;
    assert PrevEnd(r, 0, 2) == 0x3F0;
  }

  /** The first request ends at 0x3AF: no skip. */
  lemma PlaceUnskipped(pl: Placement, n: Node)
    requires pl == Io16Skip(AliasPolicy(false, true), false)
    requires n.length == 0x3B0 && n.alignment == 0xF && n.owner.kind == Endpoint
    ensures Place(pl, 0, n) == 0
  {
    SixteenIsPow2();
    RoundUpNoop(0, 0xF);
    LimitOffsetSmall(0, 0x3B0);
    assert (0 + 0x3B0 - 1) % 0x400 == 0x3AF;
    assert SkipVgaAperture(0, n.length) == 0;
  }

  /** A 0x10-byte request at 0x3B0 or 0x3F0 ends at or above 0x3B0: it goes to 0x3E0. */
  lemma PlaceSkipped(pl: Placement, ap: nat, n: Node)
    requires pl == Io16Skip(AliasPolicy(false, true), false)
    requires ap == 0x3B0 || ap == 0x3F0
    requires n.length == 0x10 && n.alignment == 0xF && n.owner.kind == Endpoint
    ensures Place(pl, ap, n) == 0x3E0
  {
    if ap == 0x3B0 {
      DivModUnique(0x3B0, 0x10, 0x3B, 0);
    } else {
      DivModUnique(0x3F0, 0x10, 0x3F, 0);
    }
    AlignedTo16(ap);
    VgaSkipTo3E0(ap);
    DivModUnique(0x3E0, 0x10, 0x3E, 0);
    AlignedTo16(0x3E0);
  }

  /** A multiple of 0x10 is already aligned to 0x10. */
  lemma AlignedTo16(x: nat)
    requires x % 0x10 == 0
    ensures RoundUp(x, 0xF) == x
  {
    SixteenIsPow2();
    RoundUpNoop(x, 0xF);
  }

  /** A 0x10-byte range at 0x3B0 or 0x3F0 ends in the VGA part of the first block. */
  lemma VgaSkipTo3E0(ap: nat)
    requires ap == 0x3B0 || ap == 0x3F0
    ensures SkipVgaAperture(ap, 0x10) == 0x3E0
  {
    LimitOffsetSmall(ap, 0x10);
    DivModUnique(ap + 0xF, 0x400, 0, ap + 0xF);
    DivModUnique(ap, 0x400, 0, ap);
  }

  lemma SixteenIsPow2()
    ensures IsPow2(0x10)
  {
    Pow2Values();
    Pow2IsPow2(4);
  }

  /** An aligned aperture is left where it is. */
  lemma RoundUpNoop(ap: nat, alignment: nat)
    requires IsPow2(alignment + 1) && ap % (alignment + 1) == 0
    ensures RoundUp(ap, alignment) == ap
  {
    AndMaskMod(ap, alignment);
  }

  /** Below 2^64 the limit offset is the last byte's offset in its block. */
  lemma LimitOffsetSmall(start: nat, length: nat)
    requires 1 <= start + length <= 0x1_0000_0000_0000_0000
    ensures LimitOffset(start, length) == (start + length - 1) % 0x400
  {
    var last := start + length - 1;
    Pow2Values();
    DivModUnique(last, Pow2(64), 0, last);
    assert Trunc(last, 64) == last;
    BlockOffset(last);
  }

  /** The three requests of the overlap example. */
  function VgaOverlapKids(): seq<Node>
  {
    var dev := Owner(1, Endpoint, [], [], 0);
    [CreateResourceNode(dev, 0x3B0, 0xF, 0, Io16, Typical),
     CreateResourceNode(dev, 0x10, 0xF, 1, Io16, Typical),
     CreateResourceNode(dev, 0x10, 0xF, 2, Io16, Typical)]
  }

  // ---------------------------------------------------------------------
  // The aperture of a bridge

  /** The bridge's alignment after packing: raised to its first child's. */
  function RaisedAlignment(bridge: Node): nat
  {
    if bridge.children != [] && bridge.children[0].alignment > bridge.alignment
    then bridge.children[0].alignment else bridge.alignment
  }

  /** Children only moved, pairwise disjoint, and inside [0, length). */
  predicate WellPacked(old_kids: seq<Node>, kids: seq<Node>, length: nat)
  {
    && |kids| == |old_kids|
    && (forall i :: 0 <= i < |kids| ==> kids[i] == old_kids[i].(offset := kids[i].offset))
    && (forall i :: 0 <= i < |kids| ==> kids[i].offset + kids[i].length <= length)
    && (forall i, j :: 0 <= i < j < |kids| ==> kids[i].offset + kids[i].length <= kids[j].offset)
  }

  /**
   * CalculateApertureIo16: pack the children (with the corrected VGA skip),
   * round the end up to the bridge's alignment and OVERWRITE the bridge
   * length with it.
   */
  function CalculateApertureIo16(bridge: Node, policy: AliasPolicy): (r: Node)
    ensures WellPacked(bridge.children, r.children, r.length)
    ensures IsPow2(bridge.alignment + 1) ==> r.length % (bridge.alignment + 1) == 0
    ensures bridge.children != [] ==> r.alignment >= bridge.children[0].alignment
    ensures r.alignment >= bridge.alignment
    ensures r.alignment == bridge.alignment
            || (bridge.children != [] && r.alignment == bridge.children[0].alignment)
    ensures r.(length := bridge.length, alignment := bridge.alignment, children := bridge.children) == bridge
  {
    var p := Pack(bridge.children, 0, Io16Skip(policy, true));
    PackDisjoint(bridge.children, 0, Io16Skip(policy, true));
    bridge.(children := p.0, length := RoundUp(p.1, bridge.alignment), alignment := RaisedAlignment(bridge))
  }

  /**
   * When no child meets the backwards VGA move, the IO16 aperture is what
   * the source's packing, with the skip as written, computes.
   */
  lemma ApertureIo16AsWritten(bridge: Node, policy: AliasPolicy)
    requires NoBackwardVgaSkip(bridge.children, 0, policy)
    ensures var p := Pack(bridge.children, 0, Io16Skip(policy, false));
            var r := CalculateApertureIo16(bridge, policy);
            r.children == p.0 && r.length == RoundUp(p.1, bridge.alignment)
  {
    PackAgrees(bridge.children, 0, policy);
  }

  /**
   * CalculateResourceAperture: IO16 bridges go to the IO16 variant; any
   * other bridge packs its children and keeps the LARGER of its current
   * length (padding already applied) and the rounded end.
   */
  function CalculateResourceAperture(bridge: Node, policy: AliasPolicy): (r: Node)
    ensures WellPacked(bridge.children, r.children, r.length)
    ensures bridge.resType != Io16 ==> r.length >= bridge.length
    ensures bridge.children != [] ==> r.alignment >= bridge.children[0].alignment
    ensures r.alignment >= bridge.alignment
    ensures r.alignment == bridge.alignment
            || (bridge.children != [] && r.alignment == bridge.children[0].alignment)
    ensures r.(length := bridge.length, alignment := bridge.alignment, children := bridge.children) == bridge
  {
    if bridge.resType == Io16 then CalculateApertureIo16(bridge, policy)
    else
      var p := Pack(bridge.children, 0, Plain);
      PackDisjoint(bridge.children, 0, Plain);
      var end := RoundUp(p.1, bridge.alignment);
      bridge.(children := p.0,
              length := if bridge.length < end then end else bridge.length,
              alignment := RaisedAlignment(bridge))
  }

  /**
   * The IO16 variant ignores the length the bridge had (padding included):
   * two bridges that differ only in length get the same IO16 aperture.
   */
  lemma Io16LengthOverwritten(bridge: Node, policy: AliasPolicy, otherLength: nat)
    requires bridge.resType == Io16
    ensures CalculateResourceAperture(bridge, policy)
         == CalculateResourceAperture(bridge.(length := otherLength), policy)
  {
  }

  /**
   * For any other type the length is the larger of the old length and the
   * aligned end of the packed children: padding is never lost, and the
   * children always fit.
   */
  lemma MemoryLengthIsMax(bridge: Node, policy: AliasPolicy)
    requires bridge.resType != Io16
    ensures var r := CalculateResourceAperture(bridge, policy);
            var end := RoundUp(Pack(bridge.children, 0, Plain).1, bridge.alignment);
            r.length >= end && (r.length == bridge.length || r.length == end)
  {
  }
}
