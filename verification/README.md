# EDK II framework-module cores, modelled in Dafny

This project models seven self-contained pieces of the EDK II
IntelFrameworkModulePkg firmware and proves properties of them. Each piece
is one Dafny module in its own file.

- **PCI resource planner and programmer**
  (`Bus/Pci/PciBusDxe/PciResourceSupport.c`):
  - `PciTree` (`pci_tree.dfy`): resource nodes, sorted insertion,
    tree merge, the ISA/VGA alias skips and the two aperture packers.
  - `PciMap` (`pci_map.dfy`): BAR classification into the five pools, CardBus and
    descriptor padding, the degradation table, recursive map building and the
    per-device lookup.
  - `PciProgram` (`pci_program.dfy`): BAR, bridge-window and CardBus
    programming as a log of configuration writes.
- **Bus numbering and the allocation loop** (`Bus/Pci/PciBusDxe/PciLib.c`):
  - `PciScan` (`pci_scan.dfy`): PciScanBus over a topology oracle.
  - `PciAlloc` (`pci_alloc.dfy`): PciHostBridgeResourceAllocator as a
    sequence of attempts whose collaborator answers are inputs.
- **PS/2 keyboard** (`Bus/Isa/Ps2KeyboardDxe/Ps2KbdCtrller.c`):
  - `Ps2Buffer` (`ps2_buffer.dfy`): the scancode ring buffer and the timer
    handler.
  - `Ps2Decode` (`ps2_decode.dfy`): KeyGetchar's decoding, modifier state and
    table lookup, and the status-light byte.
- **ISA I/O** (`Bus/Isa/IsaBusDxe/IsaIo.c`):
  - `IsaIo` (`isa_io.dfy`): IsaIoVerifyAccess.
  - `IsaDma` (`isa_dma.dfy`): the 8237 validation and register arithmetic of both
    IsaIoMap variants, WriteDmaPort, and IsaIoAllocateBuffer's checks.
- **PEI read-only variable store**:
  - `VarFormat` (`var_format.dfy`): header layout, size/pad/alignment
    arithmetic and store status (`Universal/VariablePei/Variable.h`,
    `Variable.c`).
  - `VarIndex` (`var_index.dfy`): the 16-bit compressed index table
    (`Universal/VariablePei/Ipf/VariableWorker.c`).
  - `VarStore` (`var_store.dfy`): FindVariable, PeiGetVariable and
    PeiGetNextVariableName.
- **Option-ROM image table** (`Bus/Pci/PciBusDxe/PciRomTable.c`):
  `RomTable` (`rom_table.dfy`).
- **Front-page helpers** (`Universal/BdsDxe/FrontPage.c`):
  `FrontPage` (`front_page.dfy`) models:
  - the SMBIOS string-set lookup (text strings as in section 6.1.3 of the
    SMBIOS Reference Specification, DMTF DSP0134);
  - the frequency and memory-size text;
  - the ShowProgress countdown.

Two support modules are shared by the others:
- `Bits` (`bits.dfy`): bitwise AND/OR on naturals and powers of two.
- `Efi` (`efi.dfy`): EFI status codes and `Option`.

## Conventions

Everything is an immutable datatype or a pure function:
- Resource trees are nodes with a `seq` of children.
- The variable store is a byte map, in which unwritten addresses read 0xFF as
  erased flash does.
- Config-space and port writes are returned as logs.
- Hardware probes and the answers of collaborators the source calls but
  does not define are parameters. These include:
  - device presence and the bridge's decode set;
  - the hot-plug padding;
  - the host-bridge allocation service;
  - the page allocator;
  - the result of each port write;
  - keyboard status bytes.

Integer widths are modelled explicitly where the source depends on them:
- UINT8 bus counters wrap modulo 0x100.
- The UINT32 casts of the ISA arithmetic and the UINTN wrap of the
  VerifyAccess end address are written out.
- The 16-bit index entries are truncated.
- The FreqMhz multiplication is taken in a UINT32.

Constants defined in headers that are not part of this model were taken from
the EDK II headers and are named constants in the modules. These are the
VGA/ISA alias bounds, the PPB and P2C bar indices, the scancodes, the 8237
ports, the variable-store signature and states, and ALIGNMENT 8 for the IPF
build.

Behaviour of the code that a reader might expect otherwise:
- **Equal alignments.** The insertion loop stops a new node in front of the
  first equally aligned sibling when its own `Length & Alignment` is 0 or at
  least the sibling's, so ties go to the last node inserted
  (`PciTree.TieGoesToLastInserted`).
- **Bridge length.** The non-IO16 packer keeps the larger of the bridge's
  length and the packed end (`PciTree.MemoryLengthIsMax`). The IO16 packer
  overwrites the length with the packed end (`PciTree.Io16LengthOverwritten`).
- **Retry loop.** A construction or submission error returns at once after
  the pools are destroyed (`PciAlloc.SubmissionFailureEnds`). Only a failed
  AllocateResources phase can lead to a hot-plug retry.
- **Option-ROM check.** DegradeResource looks for option ROMs among the
  bridge's direct children only (`hasOprom`), not deeper in the subtree.
- **Write errors.** ProgramResource ignores the status of every
  configuration write. Its only error is an all-ones base, which comes back
  from a child bridge's recursion.
- **CardBus bridges.** These get a bus number but are not scanned behind.
- **ROM table growth.** The image table's capacity is grown before the
  allocation is tried, so a failed allocation leaves it grown. The
  as-written addition is `RomTable.AddImageMappingAsWritten` and is listed
  under Findings; `RomTable.AddAll` runs the corrected
  `RomTable.AddImageMapping`.

## Model

| member | source | states |
|---|---|---|
| PciTree.CreateResourceNode | Bus/Pci/PciBusDxe/PciResourceSupport.c:658-688 | a fresh node carries exactly the requested owner, length, alignment, bar, type and usage, with offset 0, no children, not virtual |
| PciTree.CreateVfResourceNode | Bus/Pci/PciBusDxe/PciResourceSupport.c:705-735 | the same node marked as a virtual-function request |
| PciTree.InsertionPoint | Bus/Pci/PciBusDxe/PciResourceSupport.c:106-125 | the loop passes every sibling in front of which the new node does not stop, and stops in front of the first one that is less strictly aligned, or equally aligned with a rest (Length & Alignment) the new node's rest is 0 or at least |
| PciTree.InsertSorted | Bus/Pci/PciBusDxe/PciResourceSupport.c:106-125 | insertion adds exactly the new node: the result is the old list with the node placed at the insertion point |
| PciTree.InsertResourceNode | Bus/Pci/PciBusDxe/PciResourceSupport.c:93-126 | the bridge gains exactly one child, the new node, keeps every other field, and a child list non-increasing in alignment stays so |
| PciTree.InsertSortedMultiset | Bus/Pci/PciBusDxe/PciResourceSupport.c:106-125 | the child multiset grows by exactly the new node |
| PciTree.InsertKeepsDescending | Bus/Pci/PciBusDxe/PciResourceSupport.c:106-125 | a child list non-increasing in alignment stays non-increasing |
| PciTree.TieGoesToLastInserted | Bus/Pci/PciBusDxe/PciResourceSupport.c:112-119 | of two equally aligned nodes, when the later one's rest is 0 it ends up in front of the earlier one |
| PciTree.MergeChildren | Bus/Pci/PciBusDxe/PciResourceSupport.c:160-171 | every source child ends up in the destination (multiset union), retyped only when a type is given, and sorted lists stay sorted |
| PciTree.MergeResourceTree | Bus/Pci/PciBusDxe/PciResourceSupport.c:147-172 | afterwards the source has no children, the destination holds its own and every former source child, and merging an empty source changes nothing |
| PciTree.RetypeNoneIsIdentity | Bus/Pci/PciBusDxe/PciResourceSupport.c:165-167 | without TypeMerge the moved nodes keep their types |
| PciTree.RetypeAppend | Bus/Pci/PciBusDxe/PciResourceSupport.c:158-171 | retyping two lists moved one after the other is retyping their concatenation |
| PciTree.RetypeTwice | Bus/Pci/PciBusDxe/PciResourceSupport.c:165-167 | a node moved twice with TypeMerge carries the type of the last destination only |
| PciTree.RetypePerm | Bus/Pci/PciBusDxe/PciResourceSupport.c:158-171 | the retyped requests of two orderings of the same requests are the same multiset |
| PciTree.RetypeMerged | Bus/Pci/PciBusDxe/PciResourceSupport.c:158-171 | merging a pool that already holds moved requests into a TypeMerge destination retypes both its own and the moved requests to the destination's type |
| PciTree.RetypeSomeSetsType | Bus/Pci/PciBusDxe/PciResourceSupport.c:165-167 | with TypeMerge every moved node takes the destination's type |
| PciTree.RoundUp | Bus/Pci/PciBusDxe/PciResourceSupport.c:355-361 | the aperture moves up by at most the alignment, and for an alignment of the form 2^n-1 lands on a multiple of 2^n, so it is the least such multiple at or above the aperture |
| PciTree.SkipIsaAliasAperture | Bus/Pci/PciBusDxe/PciResourceSupport.c:57-82 | the start moves to the next 1 KiB block exactly when the range's last byte falls at 0x100 or above in its block; otherwise it stays |
| PciTree.SkipVgaAperture | Bus/Pci/PciBusDxe/PciResourceSupport.c:25-47 | as written: when the last byte is at 0x3B0 or above in its block, the start becomes offset 0x3E0 of the start's block |
| PciTree.SkipVgaApertureFixed | Bus/Pci/PciBusDxe/PciResourceSupport.c:25-47 | corrected: the same move only when it goes forward; the start never decreases |
| PciTree.SkipVgaBackwards | Bus/Pci/PciBusDxe/PciResourceSupport.c:41-46 | the as-written skip moves the start backwards exactly when the start is past 0x3E0 in its block and the last byte is at or above 0x3B0 |
| PciTree.Place | Bus/Pci/PciBusDxe/PciResourceSupport.c:238-279 | a child's offset is a multiple of its alignment + 1 and, with the forward (corrected) placement, not below the running aperture |
| PciTree.Pack | Bus/Pci/PciBusDxe/PciResourceSupport.c:348-378 | packing keeps the children in order and changes only their offsets |
| PciTree.PackPlaces | Bus/Pci/PciBusDxe/PciResourceSupport.c:348-378 | each child sits where Place puts it given the end of the child before it |
| PciTree.PackAligned | Bus/Pci/PciBusDxe/PciResourceSupport.c:355-367 | every packed offset is a multiple of the child's alignment + 1 |
| PciTree.PackDisjoint | Bus/Pci/PciBusDxe/PciResourceSupport.c:348-378 | packed siblings never overlap, and all of them lie between the starting aperture and the final one |
| PciTree.PackForward | Bus/Pci/PciBusDxe/PciResourceSupport.c:348-378 | each child starts at or after the end of its predecessor |
| PciTree.VgaSkipOverlapAsWritten | Bus/Pci/PciBusDxe/PciResourceSupport.c:263-279 | with the as-written VGA skip, three IO16 requests (0x3B0, 0x10, 0x10 bytes) packed from 0 put the second and the third both at 0x3E0 |
| PciTree.PlaceAgrees | Bus/Pci/PciBusDxe/PciResourceSupport.c:263-279 | where the as-written VGA skip does not move a child's aligned start backwards, both skips place the child at the same offset |
| PciTree.PackAgrees | Bus/Pci/PciBusDxe/PciResourceSupport.c:263-287 | a packing in which no child meets the backwards VGA move gives the same offsets and end with the as-written skip as with the corrected one |
| PciTree.PackAgreesWithoutVga | Bus/Pci/PciBusDxe/PciResourceSupport.c:263-279 | with ISA aliasing preferred or no VGA aliasing reserved, every packing meets that condition and the two skips agree |
| PciTree.CalculateApertureIo16 | Bus/Pci/PciBusDxe/PciResourceSupport.c:182-311 | with the corrected VGA skip: the children are packed in order, without overlap and inside the new length; the length is a multiple of the bridge's alignment + 1; the alignment becomes the larger of the bridge's and the first child's; nothing else changes |
| PciTree.ApertureIo16AsWritten | Bus/Pci/PciBusDxe/PciResourceSupport.c:263-299 | when no child meets the backwards VGA move, the IO16 aperture's children and length are those of the source's packing with the skip as written |
| PciTree.CalculateResourceAperture | Bus/Pci/PciBusDxe/PciResourceSupport.c:321-409 | with the corrected VGA skip for IO16: the children are packed in order, without overlap and inside the new length; a non-IO16 bridge keeps at least its old length; the alignment becomes the larger of the bridge's and the first child's; nothing else changes |
| PciTree.Io16LengthOverwritten | Bus/Pci/PciBusDxe/PciResourceSupport.c:293-299 | two IO16 bridges differing only in their length (padding included) get the same aperture |
| PciTree.MemoryLengthIsMax | Bus/Pci/PciBusDxe/PciResourceSupport.c:384-396 | a non-IO16 bridge's new length is its old length or the rounded end of the packed children, whichever is larger: padding is never lost and the children always fit |
| PciMap.InsertAllContents | Bus/Pci/PciBusDxe/PciResourceSupport.c:93-126 | inserting a batch adds to each pool exactly the batch's nodes for it, keeps the root otherwise unchanged and keeps sorted pools sorted |
| PciMap.InsertAllAll | Bus/Pci/PciBusDxe/PciResourceSupport.c:93-126 | the same for all five pools at once, with every root's own fields unchanged |
| PciMap.InsertAllUntouched | Bus/Pci/PciBusDxe/PciResourceSupport.c:93-126 | a pool the batch does not address is left exactly as it was |
| PciMap.BarRequestsShape | Bus/Pci/PciBusDxe/PciResourceSupport.c:440-544 | every request comes from an implemented BAR slot and carries that slot's length and alignment, the slot index as its bar, the type of the pool the BAR type maps to, typical usage, the owner and the VF flag |
| PciMap.BarRequestsCount | Bus/Pci/PciBusDxe/PciResourceSupport.c:440-544 | every implemented BAR slot produces exactly one request, and no other slot produces any |
| PciMap.VfRequestsNoIo | Bus/Pci/PciBusDxe/PciResourceSupport.c:624-626 | virtual-function BARs never request I/O space |
| PciMap.GetResourceFromDevice | Bus/Pci/PciBusDxe/PciResourceSupport.c:423-641 | each pool gains exactly the device's physical and VF requests for it; the device is marked Allocated exactly when no physical BAR requested anything |
| PciMap.NoneImplemented | Bus/Pci/PciBusDxe/PciResourceSupport.c:638-640 | no request from the physical BARs exactly when every physical BAR's type maps to no pool |
| PciMap.GetResourceFromDeviceIo | Bus/Pci/PciBusDxe/PciResourceSupport.c:519-536 | the I/O pool receives only the device's physical I/O requests |
| PciMap.ResourcePaddingForCardBusBridge | Bus/Pci/PciBusDxe/PciResourceSupport.c:1836-1920 | the CardBus bridge's two memory windows go to Mem32 and PMem32 and its two I/O windows to I/O; the 64-bit pools and every root's own fields are untouched |
| PciMap.CardBusNodes | Bus/Pci/PciBusDxe/PciResourceSupport.c:1853-1919 | the four CardBus padding nodes split over the pools as I/O x2, Mem32 x1, PMem32 x1 |
| PciMap.PaddingRequests | Bus/Pci/PciBusDxe/PciResourceSupport.c:2184-2305 | the padding requests of a descriptor list are at most one per descriptor |
| PciMap.PaddingStopsAtEndTag | Bus/Pci/PciBusDxe/PciResourceSupport.c:2184 | descriptors after the end tag are never read |
| PciMap.PaddingRequestsShape | Bus/Pci/PciBusDxe/PciResourceSupport.c:2186-2305 | every padding request is a padding-usage node of its pool's type with a nonzero length and bar 0 |
| PciMap.ApplyResourcePadding | Bus/Pci/PciBusDxe/PciResourceSupport.c:2168-2310 | each pool gains exactly the padding requests for it, sorted pools stay sorted and the roots are otherwise unchanged |
| PciMap.Merge | Bus/Pci/PciBusDxe/PciResourceSupport.c:147-172 | merging two memory pools empties the source and leaves the other pools alone; the destination's requests are its own plus the source's, retyped to the destination's type exactly under TypeMerge (as multisets) |
| PciMap.DegradeResource | Bus/Pci/PciBusDxe/PciResourceSupport.c:1031-1127 | a missing PMem64, PMem32 or Mem64 decode empties that pool; combined decode empties both prefetchable pools; without a reason to degrade PMem64 it is kept; the result is the degradation table's outcome, and with combined decode the Mem32 and Mem64 pools hold, as multisets, their own and the prefetchable pools' requests unretyped; I/O is untouched |
| PciMap.Combine | Bus/Pci/PciBusDxe/PciResourceSupport.c:1114-1126 | with combined decode the prefetchable pools end up empty; Mem32 holds its own and PMem32's requests and Mem64 its own and PMem64's, as multisets, without retyping |
| PciMap.DegradeTypes | Bus/Pci/PciBusDxe/PciResourceSupport.c:1063-1108 | each pool named by a missing decode is emptied into its fallback; as multisets, PMem32 gains PMem64's requests retyped to PMem32 when PMem64 is degraded, and Mem32 gains Mem64's, PMem32's and (through PMem32) PMem64's requests retyped to Mem32 exactly when their decodes are missing |
| PciMap.DegradeSteps | Bus/Pci/PciBusDxe/PciResourceSupport.c:1063-1108 | the three merge steps together move each degraded pool's requests into its fallback, as the DegradeTypes row states |
| PciMap.Degrade1 | Bus/Pci/PciBusDxe/PciResourceSupport.c:1063-1085 | the PMem64 step leaves Mem32 and Mem64 alone and moves PMem64's requests, retyped, into PMem32 only when it degrades |
| PciMap.DegradeMem32 | Bus/Pci/PciBusDxe/PciResourceSupport.c:1090-1108 | the Mem32 pool after the Mem64 and PMem32 steps holds, as a multiset, its own requests and each degraded pool's requests retyped to Mem32 |
| PciMap.MergeMem64 | Bus/Pci/PciBusDxe/PciResourceSupport.c:1090-1096 | without 64-bit decode the Mem64 requests move to Mem32, retyped to Mem32 (as multisets); with it nothing changes; PMem32 is untouched |
| PciMap.MergeRest | Bus/Pci/PciBusDxe/PciResourceSupport.c:1102-1108 | without prefetchable decode the PMem32 requests move to Mem32, retyped to Mem32 (as multisets); with it nothing changes |
| PciMap.DegradeKeepsPMem64WithoutOprom | Bus/Pci/PciBusDxe/PciResourceSupport.c:1063-1083 | because the PMem32 length is still 0 when degradation runs, a bridge with PMem64 decode and no option ROM below keeps its PMem64 requests |
| PciMap.BridgeWindows | Bus/Pci/PciBusDxe/PciResourceSupport.c:797-840 | a PCI-PCI bridge's five windows start without children, with length 0 and the type of their pool |
| PciMap.WindowRequestsPick | Bus/Pci/PciBusDxe/PciResourceSupport.c:854-926 | each window of a child bridge reaches the parent's pool as one node exactly when ResourceRequestExisted holds for it |
| PciMap.BridgeChildContents | Bus/Pci/PciBusDxe/PciResourceSupport.c:769-945 | a PCI-PCI bridge child adds to each pool its BAR and VF BAR requests and, when that window of its sub-map requests anything, the window as one node; the sub-map's settled devices are kept, and the bridge itself is settled when none of its physical BARs requests anything |
| PciMap.CardBusChildContents | Bus/Pci/PciBusDxe/PciResourceSupport.c:933-942 | a CardBus child adds the four padding windows after its BAR requests |
| PciMap.Apertures | Bus/Pci/PciBusDxe/PciResourceSupport.c:973-977 | all five roots are repacked and packed without overlap |
| PciMap.FinishMap | Bus/Pci/PciBusDxe/PciResourceSupport.c:950-977 | after padding, degradation and packing, the roots are packed and the degraded pools are empty |
| PciMap.CreateResourceMap | Bus/Pci/PciBusDxe/PciResourceSupport.c:750-978 | the built map is packed in all five pools, honours the bridge's decode set and keeps each root's type |
| PciMap.ChildLoop | Bus/Pci/PciBusDxe/PciResourceSupport.c:769-945 | the child loop changes only the pools' child lists and only adds settled devices |
| PciMap.ChildStep | Bus/Pci/PciBusDxe/PciResourceSupport.c:779-942 | one child changes only the pools' child lists and only adds settled devices |
| PciMap.InsertAllSameRoots | Bus/Pci/PciBusDxe/PciResourceSupport.c:93-126 | inserting a batch changes no root beyond its child list |
| PciMap.EmptyBridgeGetsNoWindow | Bus/Pci/PciBusDxe/PciResourceSupport.c:854-926 | a bridge with nothing below it and no padding produces no window in its parent |
| PciMap.LeafMap | Bus/Pci/PciBusDxe/PciResourceSupport.c:950-977 | a device without children or padding only degrades and packs its windows |
| PciMap.BareApertures | Bus/Pci/PciBusDxe/PciResourceSupport.c:1643-1654 | empty roots pack to windows that request nothing |
| PciMap.DegradeBare | Bus/Pci/PciBusDxe/PciResourceSupport.c:1031-1127 | degrading empty roots leaves them empty |
| PciMap.EmptyAperture | Bus/Pci/PciBusDxe/PciResourceSupport.c:1643-1654 | a root without children and with length 0 stays without a request after packing |
| PciMap.InitializeResourcePool | Bus/Pci/PciBusDxe/PciResourceSupport.c:1665-1674 | a fresh pool has the given type and no owner, and requests nothing |
| PciMap.LastOwnedBy | Bus/Pci/PciBusDxe/PciResourceSupport.c:1712-1790 | the lookup returns the last child owned by the device when there is one, and the caller's value otherwise |
| PciMap.GetResourceMap | Bus/Pci/PciBusDxe/PciResourceSupport.c:1694-1791 | in each of the five pools, the device's last window, or the caller's value |
| PciProgram.Write | Bus/Pci/PciBusDxe/PciResourceSupport.c:1454-1460 | a configuration write stores the value truncated to the write's width |
| PciProgram.BarWritesRecover | Bus/Pci/PciBusDxe/PciResourceSupport.c:1243-1296 | reading a BAR back gives the address (mod 2^32 for 32-bit BARs, high * 2^32 + low for 64-bit ones); Unknown BARs get nothing; only the BAR's own registers are written |
| PciProgram.ProgramVfBar | Bus/Pci/PciBusDxe/PciResourceSupport.c:1313-1411 | the device is marked allocated first, and only the VF BAR's registers are written |
| PciProgram.ProgramPhysicalBar | Bus/Pci/PciBusDxe/PciResourceSupport.c:1243-1303 | the device is marked allocated first, and only the BAR's register and the UINT8-truncated high-dword register are written |
| PciProgram.ProgramBarAsWritten | Bus/Pci/PciBusDxe/PciResourceSupport.c:1223-1303 | as written: a VF node is programmed through ProgramVfBar and then again through the physical BAR table |
| PciProgram.ProgramBar | Bus/Pci/PciBusDxe/PciResourceSupport.c:1223-1303 | corrected: only the matching table's BAR is written; a 64-bit BAR gets low dword then high dword that together give Base+Offset; a 32-bit memory BAR gets Base+Offset mod 2^32 |
| PciProgram.VfBarOverwritesPhysicalBar | Bus/Pci/PciBusDxe/PciResourceSupport.c:1237-1239 | as written, programming a VF request leaves the VF address in the physical BAR0 register; the corrected version does not |
| PciProgram.ProgramBarAgreesOffVf | Bus/Pci/PciBusDxe/PciResourceSupport.c:1223-1303 | the as-written and corrected ProgramBar produce the same writes exactly for requests that are not virtual functions |
| PciProgram.ProgramPpbApperture | Bus/Pci/PciBusDxe/PciResourceSupport.c:1421-1582 | zero-length and padding windows write nothing; every write goes to the window's own registers |
| PciProgram.IoWindowRegisters | Bus/Pci/PciBusDxe/PciResourceSupport.c:1467-1504 | the I/O base byte and upper word read back as the address with its low byte cleared |
| PciProgram.MemWindowRegister | Bus/Pci/PciBusDxe/PciResourceSupport.c:1510-1529 | the memory window word reads back as the address with its low 16 bits cleared |
| PciProgram.PrefetchableWindowRegisters | Bus/Pci/PciBusDxe/PciResourceSupport.c:1535-1573 | the prefetchable base word and upper dword read back as the 64-bit address with its low 16 bits cleared |
| PciProgram.PpbWindowReadBack | Bus/Pci/PciBusDxe/PciResourceSupport.c:1421-1582 | a programmed window reads back as its base and last address (I/O and 32-bit memory windows keeping their low 32 bits) rounded down to the register granularity, the limit filled with ones below it |
| PciProgram.PpbAlignedWindowExact | Bus/Pci/PciBusDxe/PciResourceSupport.c:1421-1582 | a window aligned at both ends reads back exactly as Base+Offset to Base+Offset+Length-1 |
| PciProgram.ProgramP2C | Bus/Pci/PciBusDxe/PciResourceSupport.c:1930-2154 | the device is marked allocated first, and only the CardBus window's registers and the bridge-control register are written |
| PciProgram.P2cReadBack | Bus/Pci/PciBusDxe/PciResourceSupport.c:1955-2147 | after ProgramP2C the window's base register holds Base + Offset and, for the four windows, its limit register holds Base + Offset + Length - 1, each truncated to 32 bits |
| PciProgram.P2cWindowExact | Bus/Pci/PciBusDxe/PciResourceSupport.c:1968-2147 | a non-empty window that ends below 4 GiB reads back exactly as [Base + Offset, Base + Offset + Length - 1] |
| PciProgram.NewControlBits | Bus/Pci/PciBusDxe/PciResourceSupport.c:1986-2031 | the new bridge-control value has the prefetch-enable bit set exactly for non-Mem32 windows and every other bit unchanged |
| PciProgram.P2cControlBits | Bus/Pci/PciBusDxe/PciResourceSupport.c:1968-2102 | after a CardBus memory window, the bridge-control register's enable bit is set exactly when the window is not Mem32, and all other bits are as read |
| PciProgram.P2cMemControl | Bus/Pci/PciBusDxe/PciResourceSupport.c:1986-2100 | after a CardBus memory window the bridge-control register holds the value read, changed only as NewControl changes it |
| PciProgram.ProgramResource | Bus/Pci/PciBusDxe/PciResourceSupport.c:1165-1213 | OUT_OF_RESOURCES exactly when the base, or the base (Base + Offset) of some PCI-PCI bridge reached through bridges below, is all ones, and SUCCESS otherwise; an all-ones base writes nothing; the log only grows |
| PciProgram.ProgramChildren | Bus/Pci/PciBusDxe/PciResourceSupport.c:1180-1210 | the child loop from child i fails exactly when one of the remaining PCI-PCI bridge children's subtrees fails; the log only grows |
| PciProgram.FailureSkipsRest | Bus/Pci/PciBusDxe/PciResourceSupport.c:1198-1203 | an error in a child bridge's subtree ends the walk: neither that bridge's window nor any later sibling is programmed |
| PciProgram.WindowAfterSubtree | Bus/Pci/PciBusDxe/PciResourceSupport.c:1198-1205 | when a bridge child's subtree succeeds, every action of that subtree is followed by the bridge's own window writes |
| PciScan.NextIndex | Bus/Pci/PciBusDxe/PciLib.c:734-743 | the loop only moves forward |
| PciScan.VisitedSlots | Bus/Pci/PciBusDxe/PciLib.c:720-979 | function 0 of every device is probed, and functions 1..7 exactly when function 0 is present and multi-function |
| PciScan.VisitedAbove | Bus/Pci/PciBusDxe/PciLib.c:720-721 | no slot below the current one is revisited |
| PciScan.BusNumbersRoundTrip | Bus/Pci/PciBusDxe/PciLib.c:889-900 | the primary-bus register word splits back into the secondary bus and the starting bus |
| PciScan.AssignBus | Bus/Pci/PciBusDxe/PciLib.c:883-889 | a zero counter first takes the padded range, which is cleared; the counter then grows by one modulo 0x100 |
| PciScan.AddPadding | Bus/Pci/PciBusDxe/PciLib.c:945-956 | hot-plug bus padding goes to the padded range only for an enabled, initialized root-bridge padding, otherwise to the counter, modulo 0x100; the counter never shrinks unless it wraps |
| PciScan.ScanBus | Bus/Pci/PciBusDxe/PciLib.c:685-984 | the write log only grows and the counter never decreases unless it wraps |
| PciScan.ScanSlots | Bus/Pci/PciBusDxe/PciLib.c:720-981 | the same for the slot loop |
| PciScan.ScanBridge | Bus/Pci/PciBusDxe/PciLib.c:814-970 | the same for one bridge |
| PciScan.BridgeRegisters | Bus/Pci/PciBusDxe/PciLib.c:883-969 | a bridge first gets the primary-bus word naming its new secondary bus and the bus it sits on; a PCI-PCI bridge's subordinate register is set to 0xFF before the recursion and to the final counter last; a CardBus bridge is not scanned behind |
| PciAlloc.EnlargeForRom | Bus/Pci/PciBusDxe/PciLib.c:304-326 | on the first pass a larger option ROM sets the Mem32 length and ROM size to it and raises the alignment to at least ROM size - 1; on a retry nothing changes |
| PciAlloc.SubmitRoots | Bus/Pci/PciBusDxe/PciLib.c:224-379 | success exactly when every root bridge is found and its request built and submitted, with one Mem32 request per root bridge as EnlargeForRom makes it; an error other than NOT_FOUND ends with the pools destroyed; no phase is notified |
| PciAlloc.ProposeRoots | Bus/Pci/PciBusDxe/PciLib.c:432-477 | success exactly when every root bridge is found and its proposal read |
| PciAlloc.MainLoop | Bus/Pci/PciBusDxe/PciLib.c:211-528 | a pass that ends the allocator does so with an error; without hot-plug a pass never asks for another attempt |
| PciAlloc.ProgramRoots | Bus/Pci/PciBusDxe/PciLib.c:550-650 | success exactly when every root bridge is found and its proposal read, and then each is programmed |
| PciAlloc.Allocate | Bus/Pci/PciBusDxe/PciLib.c:170-668 | the allocator returns SUCCESS or an error, and a success ends with the EndResourceAllocation notification |
| PciAlloc.SubmissionFailureEnds | Bus/Pci/PciBusDxe/PciLib.c:351-379 | a build or submission error ends the allocator with that status right after the pools are destroyed, with no phase notified and no retry |
| PciAlloc.AllocationFailureWithoutHotplug | Bus/Pci/PciBusDxe/PciLib.c:389-399 | without hot-plug a failed allocation returns OUT_OF_RESOURCES after one attempt |
| PciAlloc.AllocationFailureWithHotplug | Bus/Pci/PciBusDxe/PciLib.c:410-525 | with hot-plug, a failed allocation whose proposals can be read destroys the pools and notifies FreeResources, then returns the adjustment error or runs the next attempt with ReAllocate set |
| PciAlloc.RetryDoesNotEnlarge | Bus/Pci/PciBusDxe/PciLib.c:304-326 | on a retry every root bridge requests exactly its Mem32 length and alignment |
| PciAlloc.SuccessPhases | Bus/Pci/PciBusDxe/PciLib.c:389-667 | a successful run notifies AllocateResources, then SetResources, programs every root bridge, and ends with EndResourceAllocation |
| PciAlloc.ProceedNotified | Bus/Pci/PciBusDxe/PciLib.c:389-416 | a pass that goes on to programming has just notified AllocateResources |
| Ps2Buffer.Reset | Bus/Isa/Ps2KeyboardDxe/Ps2KbdCtrller.c:1740-1742 | the reset ring (start 0, end MAX-1, count 0) is valid and holds nothing |
| Ps2Buffer.Enqueue | Bus/Isa/Ps2KeyboardDxe/Ps2KbdCtrller.c:774-786 | only while the ring is not full: the count grows by one, the end advances with wrap, and the byte is stored there; a full ring is unchanged |
| Ps2Buffer.EnqueueAppends | Bus/Isa/Ps2KeyboardDxe/Ps2KbdCtrller.c:774-786 | enqueueing into a ring with room appends the byte to the queue it holds |
| Ps2Buffer.GetScancodeBufHead | Bus/Isa/Ps2KeyboardDxe/Ps2KbdCtrller.c:836-874 | NOT_READY exactly when the count is 0 or more than held; otherwise the count oldest bytes, with the ring unchanged |
| Ps2Buffer.AdvanceDrops | Bus/Isa/Ps2KeyboardDxe/Ps2KbdCtrller.c:908-925 | removing n bytes drops exactly the n oldest bytes of the queue |
| Ps2Buffer.PopScancodeBufHead | Bus/Isa/Ps2KeyboardDxe/Ps2KbdCtrller.c:889-928 | the same bytes a peek returns, with them removed from the queue; NOT_READY leaves the ring unchanged |
| Ps2Buffer.FifoOrder | Bus/Isa/Ps2KeyboardDxe/Ps2KbdCtrller.c:1740-1742 | after a reset, enqueueing up to the ring's size leaves exactly those bytes queued, oldest first |
| Ps2Buffer.EnqueueAllAppends | Bus/Isa/Ps2KeyboardDxe/Ps2KbdCtrller.c:774-786 | enqueueing a sequence that fits appends it to the queue |
| Ps2Buffer.ReceiveByte | Bus/Isa/Ps2KeyboardDxe/Ps2KbdCtrller.c:763-813 | a byte is queued only when output is waiting without time-out and the ring has room; Ctrl and Alt make/break codes set and clear Ctrled and Alted; Ctrl+Alt with 0x53 asks for a warm reset |
| Ps2Buffer.TimerTick | Bus/Isa/Ps2KeyboardDxe/Ps2KbdCtrller.c:725-821 | after a keyboard error nothing happens; otherwise one byte is received |
| Ps2Buffer.CtrlAltDelResets | Bus/Isa/Ps2KeyboardDxe/Ps2KbdCtrller.c:791-812 | Ctrl make, Alt make, then Delete make asks for a warm reset and queues all three bytes |
| Ps2Buffer.DeleteAloneDoesNotReset | Bus/Isa/Ps2KeyboardDxe/Ps2KbdCtrller.c:811-813 | Delete without Ctrl held does not reset |
| Ps2Decode.LookupIn | Bus/Isa/Ps2KeyboardDxe/Ps2KbdCtrller.c:1460-1461 | the table lookup finds a row exactly when the table has one for the code, and the row it returns has that code |
| Ps2Decode.TableAscending | Bus/Isa/Ps2KeyboardDxe/Ps2KbdCtrller.c:23-557 | the table lists make codes in strictly increasing order, so no make code has two rows |
| Ps2Decode.LookupFindsRow | Bus/Isa/Ps2KeyboardDxe/Ps2KbdCtrller.c:1460-1461 | every row of the table is the row its own make code finds |
| Ps2Decode.KeypadRow | Bus/Isa/Ps2KeyboardDxe/Ps2KbdCtrller.c:445-522 | each keypad make code 0x47..0x53 finds its row of the keypad group |
| Ps2Decode.LedCommand | Bus/Isa/Ps2KeyboardDxe/Ps2KbdCtrller.c:1184-1195 | the LED byte has bit 2 set exactly for CapsLock, bit 1 for NumLock and bit 0 for ScrollLock, and nothing else |
| Ps2Decode.UpdateStatusLights | Bus/Isa/Ps2KeyboardDxe/Ps2KbdCtrller.c:1164-1205 | the set-LEDs command 0xED and then the LED byte are sent; nothing else changes |
| Ps2Decode.ModifierKey | Bus/Isa/Ps2KeyboardDxe/Ps2KbdCtrller.c:1359-1420 | the make and break codes of the modifier keys never change a lock |
| Ps2Decode.SpecialKey | Bus/Isa/Ps2KeyboardDxe/Ps2KbdCtrller.c:1357-1440 | CapsLock and SysReq make codes toggle CapsLock, NumLock and ScrollLock toggle their lock, each lock change sends the lights, and other codes only update the modifiers |
| Ps2Decode.KeypadStarTogglesCapsLock | Bus/Isa/Ps2KeyboardDxe/Ps2KbdCtrller.c:1421-1428 | the SysReq make code falls into the CapsLock case, and sets SysReq only after an E0 prefix |
| Ps2Decode.Drop | Bus/Isa/Ps2KeyboardDxe/Ps2KbdCtrller.c:1339-1345 | popping n bytes removes exactly the n oldest from the queue and changes nothing else |
| Ps2Decode.Step | Bus/Isa/Ps2KeyboardDxe/Ps2KbdCtrller.c:1303-1447 | one pass only consumes queued bytes, and one that yields a make code consumed at least one |
| Ps2Decode.Collect | Bus/Isa/Ps2KeyboardDxe/Ps2KbdCtrller.c:1303-1447 | the loop ends with a make code below 0x60 or with nothing ready, and only consumes queued bytes |
| Ps2Decode.PauseConsumesThree | Bus/Isa/Ps2KeyboardDxe/Ps2KbdCtrller.c:1323-1341 | an E1 prefix with two more bytes takes exactly three bytes and yields no key |
| Ps2Decode.ShortPauseWaits | Bus/Isa/Ps2KeyboardDxe/Ps2KbdCtrller.c:1325-1337 | an E1 prefix with fewer than three bytes buffered leaves everything as it was |
| Ps2Decode.KeypadSlash | Bus/Isa/Ps2KeyboardDxe/Ps2KbdCtrller.c:1452-1456 | E0 35 yields SCAN_NULL with '/' |
| Ps2Decode.Translate | Bus/Isa/Ps2KeyboardDxe/Ps2KbdCtrller.c:1460-1498 | a code in the table gives that row's EFI scan code; one not in the table leaves the key as it was |
| Ps2Decode.LetterCase | Bus/Isa/Ps2KeyboardDxe/Ps2KbdCtrller.c:1463-1485 | for every letter row of the table, without Ctrl its make code gives the upper-case letter exactly when Shift and CapsLock disagree |
| Ps2Decode.CtrlLetter | Bus/Isa/Ps2KeyboardDxe/Ps2KbdCtrller.c:1489-1495 | with Ctrl, the make code of every letter row gives that letter's control code 1..26 |
| Ps2Decode.NonLetterUnchanged | Bus/Isa/Ps2KeyboardDxe/Ps2KbdCtrller.c:1479-1495 | for every row without letters, CapsLock and Ctrl do not change the character, which follows Shift alone |
| Ps2Decode.UnknownCodeNotReady | Bus/Isa/Ps2KeyboardDxe/Ps2KbdCtrller.c:1504-1517 | an unknown code with no key pending yields the NULL key, that is, NOT_READY |
| Ps2Decode.KeypadAdjust | Bus/Isa/Ps2KeyboardDxe/Ps2KbdCtrller.c:1504-1512 | the keypad rule changes the key and nothing else; what the key becomes is stated by KeypadDigit and KeypadCursor |
| Ps2Decode.RecordState | Bus/Isa/Ps2KeyboardDxe/Ps2KbdCtrller.c:1522-1554 | recording changes the shift and toggle state and nothing else; the bits set are stated by RecordShifts and RecordToggles |
| Ps2Decode.KeypadDigit | Bus/Isa/Ps2KeyboardDxe/Ps2KbdCtrller.c:1503-1506 | with NumLock on, Shift up and no E0 prefix, every keypad code 0x47..0x53 gives its keypad row's character with scan code SCAN_NULL |
| Ps2Decode.KeypadCursor | Bus/Isa/Ps2KeyboardDxe/Ps2KbdCtrller.c:1503-1509 | otherwise every keypad code but '-' (0x4A) and '+' (0x4E) gives its keypad row's scan code with no character |
| Ps2Decode.RecordToggles | Bus/Isa/Ps2KeyboardDxe/Ps2KbdCtrller.c:1546-1554 | the toggle state gains the CapsLock, NumLock and ScrollLock bits of the locks that are on, and keeps every bit it had |
| Ps2Decode.RecordShifts | Bus/Isa/Ps2KeyboardDxe/Ps2KbdCtrller.c:1522-1545 | every modifier held sets its EFI shift-state bit (Ctrl and Alt the right-hand bit after E0, the left-hand one otherwise), and no bit already set is cleared |
| Ps2Decode.KeyGetchar | Bus/Isa/Ps2KeyboardDxe/Ps2KbdCtrller.c:1219-1557 | SUCCESS or NOT_READY; only bytes received or already queued are consumed; SUCCESS always delivers a key that is not the NULL key |
| IsaIo.ElementSize | Bus/Isa/IsaBusDxe/IsaIo.c:566 | an element is 1, 2, 4 or 8 bytes |
| IsaIo.EffectiveCount | Bus/Isa/IsaBusDxe/IsaIo.c:559-564 | FIFO widths force Count to 1; other widths keep it |
| IsaIo.Listed | Bus/Isa/IsaBusDxe/IsaIo.c:570 | the walk visits exactly the items before the first end-of-list marker |
| IsaIo.Walk | Bus/Isa/IsaBusDxe/IsaIo.c:568-592 | success exactly when some visited item holds the access; INVALID_PARAMETER exactly when none does but one holds its first byte |
| IsaIo.VerifyAccess | Bus/Isa/IsaBusDxe/IsaIo.c:523-594 | a reserved or out-of-range width is INVALID_PARAMETER; otherwise SUCCESS, INVALID_PARAMETER or UNSUPPORTED exactly as an item holds the access, only its first byte, or neither |
| IsaIo.HoldsMeansContains | Bus/Isa/IsaBusDxe/IsaIo.c:575 | for a non-empty access inside the address space, an item holds it exactly when it contains every byte |
| IsaIo.AccessAllowedIff | Bus/Isa/IsaBusDxe/IsaIo.c:555-592 | for a valid width and a non-empty access, success exactly when a listed item of the access type contains all of it |
| IsaIo.EmptyAccessAtZeroRefused | Bus/Isa/IsaBusDxe/IsaIo.c:575 | an empty access at offset 0 wraps its end to the largest UINTN and is refused |
| IsaIo.FifoIgnoresCount | Bus/Isa/IsaBusDxe/IsaIo.c:559-561 | a FIFO width gives the same answer as a one-element access |
| IsaIo.FillIsPlainWidth | Bus/Isa/IsaBusDxe/IsaIo.c:566 | a fill width checks the same range as the plain width |
| IsaIo.TailIgnored | Bus/Isa/IsaBusDxe/IsaIo.c:570 | items after the end-of-list marker are never consulted |
| IsaDma.RunWrites | Bus/Isa/IsaBusDxe/IsaIo.c:389-414 | writes happen in order and stop after the first failure, whose status is returned |
| IsaDma.DmaPortWrites | Bus/Isa/IsaBusDxe/IsaIo.c:389-408 | five byte writes |
| IsaDma.WriteDmaPort | Bus/Isa/IsaBusDxe/IsaIo.c:355-415 | success exactly when all five writes succeed; the first write is the base's low byte to the address port |
| IsaDma.DmaPortBytesRecombine | Bus/Isa/IsaBusDxe/IsaIo.c:389-408 | the bytes go address, address, page, count, count, and put the 24-bit base and 16-bit count back together |
| IsaDma.WriteDmaPortStops | Bus/Isa/IsaBusDxe/IsaIo.c:389-414 | a failing write ends WriteDmaPort with its status and nothing after it is written |
| IsaDma.AttrBits | Bus/Isa/IsaBusDxe/IsaIo.c:1200-1244 | the attribute tests read single bits: speed bit 0, SPEED_A/B/C bits 1-3, widths bits 4 and 5, modes bits 6 and 7, auto-initialize bit 8 |
| IsaDma.SlaveCheck | Bus/Isa/IsaBusDxe/IsaIo.c:1189-1245 | success exactly when the channel is not 4 and at most 7, speed is compatible and not A/B/C, the width matches the channel, and exactly one of single and demand mode is set |
| IsaDma.ModeByteSum | Bus/Isa/IsaBusDxe/IsaIo.c:1329-1346 | the mode byte's ORs are disjoint and add up |
| IsaDma.ModeRoundTrip | Bus/Isa/IsaBusDxe/IsaIo.c:1329-1346 | decoding the mode byte gives back the channel, the transfer direction, auto-initialize, increment and the mode |
| IsaDma.Clamp | Bus/Isa/IsaBusDxe/IsaIo.c:1351-1354 | the mapped byte count is at most the request and at most the bytes left in the 64 KiB segment |
| IsaDma.ClampStaysInSegment | Bus/Isa/IsaBusDxe/IsaIo.c:1351-1354 | the clamped transfer stays in one 64 KiB segment and is cut only at a segment end |
| IsaDma.Registers8 | Bus/Isa/IsaBusDxe/IsaIo.c:1359-1361 | the base fits 32 bits and the count 16 |
| IsaDma.Registers16 | Bus/Isa/IsaBusDxe/IsaIo.c:1362-1365 | the base fits 24 bits and the count 16 |
| IsaDma.Registers8Decode | Bus/Isa/IsaBusDxe/IsaIo.c:1359-1361 | a byte channel reads back the device address and transfers count + 1 bytes |
| IsaDma.Registers16Decode | Bus/Isa/IsaBusDxe/IsaIo.c:1362-1365 | a word channel's page is bits 16-23 of the address, its offset is the word index in the segment, and count + 1 words cover the request |
| IsaDma.ZeroBytesProgramFullCount | Bus/Isa/IsaBusDxe/IsaIo.c:1361-1364 | mapping zero bytes programs count 0xFFFF |
| IsaDma.Place | Bus/Isa/IsaBusDxe/IsaIo.c:1250-1321 | a buffer below 16 MiB is used directly; above it a common buffer is UNSUPPORTED and other transfers get the allocator's bounce buffer, if any |
| IsaDma.SlaveProgram | Bus/Isa/IsaBusDxe/IsaIo.c:1370-1424 | a slave program is nine port writes |
| IsaDma.SlaveProgramMasks | Bus/Isa/IsaBusDxe/IsaIo.c:1380-1422 | the first write masks the channel and the last one unmasks it |
| IsaDma.Program | Bus/Isa/IsaBusDxe/IsaIo.c:1351-1424 | the programmed byte count is the clamped request at the device address |
| IsaDma.MapFull | Bus/Isa/IsaBusDxe/IsaIo.c:1093-1427 | NULL arguments, a bad operation or a failed slave check are INVALID_PARAMETER with no writes; bus-master operations write nothing; any programmed transfer stays in its 64 KiB segment |
| IsaDma.SlaveTransfer | Bus/Isa/IsaBusDxe/IsaIo.c:1250-1424 | a slave transfer is programmed at a device address, or fails with 0 bytes and no writes |
| IsaDma.MapSlaveOnly | Bus/Isa/IsaBusDxe/IsaIo.c:846-1091 | only slave reads and writes on channels 0-3 are accepted, everything else is INVALID_PARAMETER; accepted ones are programmed or fail with 0 bytes |
| IsaDma.SlaveOnlyIsFullWithDefaults | Bus/Isa/IsaBusDxe/IsaIo.c:1011-1020 | on what it accepts, the slave-only variant is the full one with compatible speed, 8-bit width and single mode |
| IsaDma.Map | Bus/Isa/IsaBusDxe/IsaIo.c:1429-1509 | without ISA DMA support UNSUPPORTED; otherwise the platform-chosen variant |
| IsaDma.SlaveMapProgramsAll | Bus/Isa/IsaBusDxe/IsaIo.c:1359-1424 | a successful word-channel map writes all nine bytes with the 16-bit register values of the clamped transfer |
| IsaDma.SlaveMapProgramsAllBytes | Bus/Isa/IsaBusDxe/IsaIo.c:1359-1424 | a successful byte-channel map writes all nine bytes with base = device address and count = bytes - 1 of the clamped transfer |
| IsaDma.SlaveOnlyProgramsAll | Bus/Isa/IsaBusDxe/IsaIo.c:1011-1020 | a successful slave-only map is on channels 0-3 and writes the nine bytes in single mode with base = device address and count = bytes - 1 |
| IsaDma.SlaveMapReadsBack | Bus/Isa/IsaBusDxe/IsaIo.c:1279-1365 | with a bounce buffer below 16 MiB, as AllocateMaxAddress asks, a successful byte-channel map of at least one byte programs registers from which the controller reads back the device address and exactly NumberOfBytes bytes |
| IsaDma.AllocateBuffer | Bus/Isa/IsaBusDxe/IsaIo.c:1511-1595 | without ISA DMA, or with slave-only DMA, UNSUPPORTED and no request; a page request is made only with a host pointer, a valid allocation type, boot or runtime data and no stray attribute, never for any page, below 16 MiB and for the caller's type and page count; success returns the allocator's address |
| IsaDma.StrayAttributeIff | Bus/Isa/IsaBusDxe/IsaIo.c:1570 | `Attributes & ~(WRITE_COMBINE / CACHED)` is non-zero exactly when some other attribute bit is set |
| VarFormat.EncodeHeader | Universal/VariablePei/Variable.h:59 | a header is stored as the 32 bytes of sizeof (VARIABLE_HEADER), after which the name starts |
| VarFormat.HeaderRoundTrip | Universal/VariablePei/Variable.h:47-61 | reading back the bytes a header was stored as gives the header |
| VarFormat.GetVariableStoreStatus | Universal/VariablePei/Variable.c:340-357 | EfiValid exactly when signature, format and state are the healthy values; EfiRaw exactly when signature and size are all-ones and format and state 0xFF; EfiInvalid otherwise |
| VarFormat.ErasedStoreIsRaw | Universal/VariablePei/Variable.c:350-354 | a store header in erased flash is raw |
| VarFormat.PadSizeAligns | Universal/VariablePei/Variable.h:42 | for a power-of-two ALIGNMENT the pad is below ALIGNMENT and brings the address to a multiple of it |
| VarFormat.NoPadForUnitAlignment | Universal/VariablePei/Variable.h:39-40 | ALIGNMENT 0 or 1 gives no padding |
| VarFormat.HeaderAlignRounds | Universal/VariablePei/Variable.h:45 | HEADER_ALIGN rounds up to the next multiple of HEADER_ALIGNMENT, less than one unit above, and is idempotent |
| VarFormat.NameSizeOf | Universal/VariablePei/Variable.c:164-191 | 0 when State, DataSize, NameSize or Attributes is all-ones; otherwise the stored name size |
| VarFormat.DataSizeOf | Universal/VariablePei/Variable.c:193-220 | 0 in the same cases; otherwise the stored data size |
| VarFormat.MacrosIgnoreState | Universal/VariablePei/Variable.h:47-61 | the macros agree with the functions except on a header whose State alone is erased, where the macros still give the stored sizes |
| VarFormat.DataPtr | Universal/VariablePei/Variable.c:247-277 | the data starts after the name |
| VarFormat.DataPtrMacro | Universal/VariablePei/Variable.h:63-66 | the macro's data pointer starts after the name as the macro sizes it |
| VarFormat.NextPtrAfter | Universal/VariablePei/Variable.c:279-313 | NULL exactly for a header whose StartId is not VARIABLE_DATA; otherwise a header-aligned address after the header, name and data, strictly after the current header |
| VarFormat.DataAligned | Universal/VariablePei/Variable.c:272-276 | the data is padded to ALIGNMENT relative to the name, by less than ALIGNMENT |
| VarIndex.Encode | Universal/VariablePei/Ipf/VariableWorker.c:53 | an entry is a 16-bit value |
| VarIndex.Decode | Universal/VariablePei/Ipf/VariableWorker.c:33 | a decoded pointer is a 32-bit value |
| VarIndex.Update | Universal/VariablePei/Ipf/VariableWorker.c:47-56 | the entry goes at Length and Length grows by exactly one, with no capacity check; the old entries, bounds and GoneThrough stay, and the table stays valid while it had room |
| VarIndex.DecodeShape | Universal/VariablePei/Ipf/VariableWorker.c:33 | a decoded pointer has its low two bits clear and bits 18-31 equal to StartPtr's; its offset in the window is four times the entry |
| VarIndex.EncodeDecode | Universal/VariablePei/Ipf/VariableWorker.c:27-56 | every entry decodes to an address that encodes back to it |
| VarIndex.DecodeEncode | Universal/VariablePei/Ipf/VariableWorker.c:27-56 | an address survives encode then decode exactly when it is 32-bit, 4-byte aligned and in StartPtr's 256 KiB window |
| VarIndex.UpdateRecords | Universal/VariablePei/Ipf/VariableWorker.c:53 | after recording such an address, the new last entry decodes to it |
| VarStore.Next | Universal/VariablePei/Variable.c:279-313 | a valid header's successor is header-aligned and strictly after it; otherwise NULL |
| VarStore.Chain | Universal/VariablePei/Variable.c:528-544 | the walk visits only valid headers between the start and the bound |
| VarStore.Walk | Universal/VariablePei/Variable.c:528-550 | the walk finds a variable exactly when the chain holds an added one that compares equal, returns the first one, and records the added variables up to it while the table has room |
| VarStore.CompareMeaning | Universal/VariablePei/Variable.c:391-414 | the empty name matches every variable; otherwise a match needs the four GUID dwords equal and the name's first NameSize bytes equal to the stored name |
| VarStore.IndexLookup | Universal/VariablePei/Variable.c:472-483 | the lookup returns the first table entry whose variable compares equal, or the table's length |
| VarStore.Resume | Universal/VariablePei/Variable.c:492-554 | a resumed walk keeps the table's old entries and bounds, a success is a header at or after the starting one that compares equal, and GoneThrough is set exactly when it was already set or the walk finds nothing and the table is not full |
| VarStore.ResumeOutcome | Universal/VariablePei/Variable.c:528-550 | what a resumed walk finds is the chain's first hit, and the table gains the added variables up to it |
| VarStore.FindWith | Universal/VariablePei/Variable.c:417-555 | a NULL GUID is INVALID_PARAMETER; a hit compares equal; old table entries are kept and GoneThrough is never cleared |
| VarStore.WalkStore | Universal/VariablePei/Variable.c:492-554 | a walk without an answer from the table ends in SUCCESS on a header that compares equal, NOT_FOUND with a NULL current pointer, or UNSUPPORTED; the table keeps its old entries and never loses GoneThrough |
| VarStore.FindVariableAsWritten | Universal/VariablePei/Variable.c:417-555 | as written (the walk admits EndPtr): a hit compares equal |
| VarStore.FindVariable | Universal/VariablePei/Variable.c:417-555 | corrected (the walk stops before EndPtr): a hit compares equal |
| VarStore.ChainOneMore | Universal/VariablePei/Variable.c:528 | raising a walk's bound by one adds at most the valid header at the old bound |
| VarStore.StoreChainAsWrittenExtends | Universal/VariablePei/Variable.c:528 | the as-written walk visits the corrected walk's headers and, when a valid header sits at EndPtr, that header as well |
| VarStore.FreshFindWith | Universal/VariablePei/Variable.c:417-555 | for either end test, a lookup without a table finds the first added variable that compares equal in the walk up to the bound, records the added variables up to it, and sets GoneThrough exactly on a miss with room left; a bad store is UNSUPPORTED |
| VarStore.FreshFindAsWritten | Universal/VariablePei/Variable.c:417-555 | as written: without a table, a valid store's first added variable that compares equal is found in [StartPtr, EndPtr], the header at EndPtr included; the table and GoneThrough as for FreshFind |
| VarStore.FreshFind | Universal/VariablePei/Variable.c:417-555 | corrected walk: without a table, a valid store's first added variable that compares equal is found inside [StartPtr, EndPtr); the table records the added variables up to it; GoneThrough is set exactly on a miss with room left; a bad store is UNSUPPORTED |
| VarStore.FreshTable | Universal/VariablePei/Variable.c:514-519 | a fresh table and the track carry the store's start and end pointers |
| VarStore.IndexMiss | Universal/VariablePei/Variable.c:472-483 | a table with no matching entry is searched in vain |
| VarStore.MissIsCached | Universal/VariablePei/Variable.c:485-487 | after a miss over a store whose added variables fit the table, GoneThrough is set and the next lookup returns NOT_FOUND without walking |
| VarStore.HitEntries | Universal/VariablePei/Variable.c:528-550 | the entries recorded up to the first hit name it, and no other header that compares equal |
| VarStore.HitIsCached | Universal/VariablePei/Variable.c:472-483 | after a hit whose preceding added variables fit the table, the next lookup returns the same variable from the table |
| VarStore.EndPtrAccepted | Universal/VariablePei/Variable.c:528 | as written, a store holding only its header returns a variable at EndPtr; the corrected walk returns NOT_FOUND |
| VarStore.GetVariable | Universal/VariablePei/Variable.c:557-629 | a NULL name or GUID is INVALID_PARAMETER; a copy happens only when the data fits, reporting its size; too small a buffer reports the needed size and copies nothing |
| VarStore.CopyData | Universal/VariablePei/Variable.c:601-628 | after a hit, success exactly when the data size fits the buffer, with the stored data and attributes copied; otherwise BUFFER_TOO_SMALL with the needed size; a failed lookup passes its status through |
| VarStore.FreshGetMiss | Universal/VariablePei/Variable.c:557-629 | corrected walk: in a valid store PeiGetVariable returns NOT_FOUND exactly when no added variable before EndPtr compares equal |
| VarStore.FreshGetHit | Universal/VariablePei/Variable.c:557-629 | when the first such variable is v, it returns v's data and attributes if the buffer holds them, and reports v's size either way |
| VarStore.Scan | Universal/VariablePei/Variable.c:738-765 | the scan returns the first added header of the chain, or 0 when there is none |
| VarStore.ScanFinds | Universal/VariablePei/Variable.c:738-765 | the scan stops at the chain's first added header and only there |
| VarStore.GetNextVariableName | Universal/VariablePei/Variable.c:682-768 | a NULL name is INVALID_PARAMETER; a name is returned only when it fits; too small a buffer reports the needed size and copies nothing |
| VarStore.GetNextAfterFind | Universal/VariablePei/Variable.c:725-767 | after finding the previous name, the scan from it (empty name) or from the next header decides: NOT_FOUND, or that variable's name reported |
| VarStore.EmptyNameHits | Universal/VariablePei/Variable.c:391-393 | with the empty name every added variable is a hit |
| VarStore.EnumerateFirst | Universal/VariablePei/Variable.c:682-768 | starting an enumeration reports the store's first added variable, or NOT_FOUND when there is none |
| VarStore.EnumerateNext | Universal/VariablePei/Variable.c:731-767 | continuing from the name of the k-th header (the first one of that name and GUID) reports the first added header after it, or NOT_FOUND when there is none |
| RomTable.AddImageMappingAsWritten | Bus/Pci/PciBusDxe/PciRomTable.c:66-92 | as written: a full table's capacity grows by 0x20 before the allocation is tried and stays grown when it fails, while the mapping is dropped |
| RomTable.AddAfterFailedGrowthOverflows | Bus/Pci/PciBusDxe/PciRomTable.c:66-74 | after one failed growth, the next mapping is written past the table that was actually allocated |
| RomTable.AddImageMapping | Bus/Pci/PciBusDxe/PciRomTable.c:32-93 | corrected: the count stays within the capacity; a full table whose growth fails is unchanged; otherwise the mapping is appended after the untouched old entries, growing the capacity by 0x20 only when it was full |
| RomTable.AddAllKeepsOrder | Bus/Pci/PciBusDxe/PciRomTable.c:85-92 | when every allocation succeeds, the table holds the added mappings after the old ones, in order |
| RomTable.AddAll | Bus/Pci/PciBusDxe/PciRomTable.c:32-93 | with the corrected addition, a sequence of additions keeps the count within the capacity |
| RomTable.LastRomIsLast | Bus/Pci/PciBusDxe/PciRomTable.c:172-185 | the ROM reported is the one of the last handle-less mapping for the device, or the old value when there is none |
| RomTable.AddedRomFound | Bus/Pci/PciBusDxe/PciRomTable.c:85-92 | a ROM mapping added for a device is what the next lookup reports |
| RomTable.AddOtherUnchanged | Bus/Pci/PciBusDxe/PciRomTable.c:85-92 | a mapping for another device changes nothing for this one |
| RomTable.GetImageMapping | Bus/Pci/PciBusDxe/PciRomTable.c:151-188 | SUCCESS; each mapping for the device with a driver handle adds it, in table order, and the last one without a handle sets RomImage and RomSize (the old values stay when there is none) |
| RomTable.GetRomResourceFromOptionRomTable | Bus/Pci/PciBusDxe/PciRomTable.c:95-149 | without the option-ROM configuration table NOT_FOUND and nothing set; otherwise SUCCESS, the last descriptor for the device sets the ROM, and every image mapping for it adds its handle as a driver, NULL handles included |
| RomTable.HandlesAgree | Bus/Pci/PciBusDxe/PciRomTable.c:138-145 | when every mapping for the device has a handle, the configuration-table walk and PciRomGetImageMapping add the same drivers |
| FrontPage.StrAt | Universal/BdsDxe/FrontPage.c:674-677 | the string at p runs up to its NUL and contains no NUL |
| FrontPage.GetOptionalStringByIndex | Universal/BdsDxe/FrontPage.c:660-693 | index 0 gives the empty string, and no string returned contains a NUL |
| FrontPage.SeekFinds | Universal/BdsDxe/FrontPage.c:674-682 | the loop stops on the k-th string of the set when there is one, and otherwise with the missing strings still counted |
| FrontPage.OptionalStringIsKth | Universal/BdsDxe/FrontPage.c:669-690 | index k returns the k-th string of the set when it exists and is not empty, and the missing-string placeholder otherwise |
| FrontPage.FreqMhzValue | Universal/BdsDxe/FrontPage.c:603-610 | exponents below 6 give 0 MHz; otherwise frequency * 10^(exponent - 6) in a UINT32 |
| FrontPage.ScaleIsTruncatedProduct | Universal/BdsDxe/FrontPage.c:607-609 | repeated UINT32 multiplication by 10 is the exact product truncated once |
| FrontPage.DecimalRoundTrip | Universal/BdsDxe/FrontPage.c:614-617 | the digits printed read back as the number |
| FrontPage.ConvertProcessorToString | Universal/BdsDxe/FrontPage.c:592-620 | the text ends in " GHz" |
| FrontPage.DecimalWidth | Universal/BdsDxe/FrontPage.c:614 | a number below 10^k, k at least 1, has at most k decimal digits |
| FrontPage.FrequencyTextReads | Universal/BdsDxe/FrontPage.c:614-617 | for FreqMhz below 1000000, the at most three digits before '.' read back as FreqMhz / 1000 and the two after as (FreqMhz mod 1000) / 10 |
| FrontPage.ConvertMemorySizeToString | Universal/BdsDxe/FrontPage.c:630-646 | the text is decimal digits then " MB RAM" |
| FrontPage.MemorySizeTextReads | Universal/BdsDxe/FrontPage.c:638-643 | for a size below 1000000 MB, the at most six digits read back as the memory size |
| FrontPage.Percent | Universal/BdsDxe/FrontPage.c:915 | the percentage is at most 100 |
| FrontPage.Countdown | Universal/BdsDxe/FrontPage.c:896-919 | the countdown uses at most the remaining seconds and shows percentages of at most 100 |
| FrontPage.ShowProgress | Universal/BdsDxe/FrontPage.c:865-945 | a zero timeout returns EFI_TIMEOUT at once with nothing shown; every percentage shown is within 0..100 |
| FrontPage.CountdownShows | Universal/BdsDxe/FrontPage.c:896-919 | one percentage per elapsed second, the k-th being k * 100 / total after the seconds already gone |
| FrontPage.PercentMonotone | Universal/BdsDxe/FrontPage.c:915 | a later second never shows a smaller percentage |
| FrontPage.ShownValues | Universal/BdsDxe/FrontPage.c:882-919 | the bar shows 0 and then k * 100 / T for each second that passes before a key or the timeout |
| FrontPage.NoKeyRunsToFull | Universal/BdsDxe/FrontPage.c:896-930 | with no key the bar goes from 0 up to 100 in T + 1 steps and the result is EFI_TIMEOUT |
| FrontPage.KeyStopsCountdown | Universal/BdsDxe/FrontPage.c:906-944 | a key in second n stops the bar after n + 1 values; Enter gives EFI_TIMEOUT, another key SUCCESS, and a failed read its error |
| FrontPage.ShownSorted | Universal/BdsDxe/FrontPage.c:896-919 | the percentages shown never go down |

## Left out

- I/O and timing:
  - configuration-space and port reads and writes are write logs or inputs;
  - status-code reporting, DEBUG output and TPL raising are not modelled;
  - keyboard command/response polling (KeyboardRead, KeyboardWrite, KeyboardWaitForValue, the InitKeyboard script) and ResetSystem are left out; the warm reset is a flag.
- Memory management: AllocatePool/FreePool, DestroyResourceTree, the ISA bounce-buffer copy and IsaIoUnmap are not modelled. The allocator's and AllocatePages' answers are inputs.
- Collaborators the source calls but does not define are inputs or oracles:
  - PciDevicePresent, PciSearchDevice, GetResourcePaddingForHpb and the HPC protocol calls;
  - ConstructAcpiResourceRequestor, SubmitResources, GetProposedResources, GetResourceBase and PciHostBridgeAdjustAllocation;
  - GetMaxOptionRomSize, ProcessOptionRom and AddDriver (a driver is the handle appended to a list);
  - ReadKeyStroke and the HII string lookups.
- PciScanBus's device-record creation, PCI-PCI bridge hot-plug initialization (InitializeRootHpc, the HPC state wait and event creation) and PciGetBusRange are inputs. CardBus hot-plug padding is not modelled.
- ProgrameUpstreamBridgeForRom's command-register toggling and BridgeSupportResourceDecode are not modelled; the decode set is an input.
- The PEI service plumbing, the HOB lookup and the firmware-volume header behind GetStartPointer/GetEndPointer are left out: the index table is passed in and returned, and the store's bounds come from its header.
- The HII missing-string token is left out: the missing string is the constant `MissingString`.
- FrontPage.FrequencyTextReads: the Width 3 cap that UnicodeValueToString puts on the whole GHz is not modelled, so the read-back is stated only below 1000000 MHz, where the cap does not cut; ConvertProcessorToString's text is uncapped above that.
- FrontPage.MemorySizeTextReads: the Width 6 cap on the memory size is not modelled, so the read-back is stated only below 1000000 MB; ConvertMemorySizeToString's text is uncapped above that.
- PciTree.CalculateApertureIo16: packs with the corrected VGA skip, so its non-overlap is not the source's behaviour when a child meets the backwards move; `PciTree.ApertureIo16AsWritten` states where it equals the source's packing.
- PciTree.CalculateResourceAperture: its IO16 branch is CalculateApertureIo16 and inherits the corrected VGA skip.
- PciMap.Apertures: repacks IO16 roots with the corrected VGA skip, so their non-overlap holds of the fix, not of the source when a child meets the backwards move.
- PciMap.FinishMap: its packing uses the corrected VGA skip for IO16, as PciMap.Apertures does.
- PciMap.CreateResourceMap: the built map's IO16 pool is packed with the corrected VGA skip, as PciMap.Apertures does.
- PciProgram.ProgramResource: programs each request through the corrected ProgramBar, so for a virtual-function request the log leaves out the source's second write of the VF address into the physical BAR (`PciProgram.ProgramBarAgreesOffVf` says the two agree on every other request).
- PciProgram.ProgramChildren: uses the corrected ProgramBar, as PciProgram.ProgramResource does.
- VarStore.FindVariableAsWritten: its own contract states only the GUID and hit facts; its walk without a table is characterised by `VarStore.FreshFindAsWritten`, and a walk resumed from a non-empty table is characterised for neither end test.
- VarStore.FreshFind: states the corrected walk, over [StartPtr, EndPtr); the source's walk also accepts a header at EndPtr (`VarStore.FreshFindAsWritten`).
- VarStore.MissIsCached: a miss of the corrected walk; the source's walk would still hit a matching added header at EndPtr and not set GoneThrough.
- VarStore.HitIsCached: stated for the corrected walk.
- VarStore.FreshGetMiss: NOT_FOUND exactly when no added variable before EndPtr compares equal; the source also returns one at EndPtr.
- VarStore.GetVariable: built on the corrected FindVariable, so it returns NOT_FOUND where the source returns a matching added header at EndPtr.
- VarStore.GetNextVariableName: its lookup of the current name uses the corrected FindVariable, so the index table it returns can differ from the source's when a header sits at EndPtr.
- RomTable.AddAll: runs the corrected AddImageMapping; after a failed growth the source's table breaks `Valid()` (`RomTable.AddAfterFailedGrowthOverflows`), which AddAll does not model.
- FrontPage.ShowProgress: the one-second timer event is abstracted to a sequence of wait answers, one per second.
- VarStore.GetVariable: when an index-table entry decodes to address 0, the lookup succeeds with a NULL current pointer and nothing is copied; the model keeps that case rather than ruling it out.
- VarStore.HitIsCached and VarStore.MissIsCached require the store to lie in one 256 KiB window of the 32-bit address space (`InWindow`), where every recorded entry decodes back to its header.
- RomTable.AddAllKeepsOrder: only the case where every allocation succeeds is stated.
- VarFormat.EncodeHeader: the header's reserved byte is written as 0; the model does not read it.
- PciScan.ScanBus: the counter monotonicity is stated only for runs that do not wrap the UINT8 counter (`wrapped` records a wrap).
- PciAlloc.Allocate: the allocator's answers are a finite list of attempts; a run that would need more attempts than given ends with no status (None).
- IsaIo.VerifyAccess: UINTN is 64 bits; the 32-bit UINTN wrap of `*Offset + Count * (1 << Width)` on an IA32 build is not modelled, so an access whose end wraps past 2^32 is refused here where that build accepts it.
- IsaDma.SlaveMapReadsBack: the bounce buffer's address is the allocator's answer; that it lies below 16 MiB is a precondition, not derived from the AllocateMaxAddress call.
- Addresses in the variable store and in the PCI model are unbounded naturals, except where the source's UINT32/UINT64 truncation matters (BAR dwords, bridge windows, the ISA registers, the index table).

## Findings

| source | as written | input that shows it | evidently intended | confidence | as-written member | corrected member |
|---|---|---|---|---|---|---|
| Bus/Pci/PciBusDxe/PciResourceSupport.c:41-46 | SkipVGAAperture sets the start to offset 0x3E0 of the start's 1 KiB block whenever the range's last byte is at or above 0x3B0, even when the start is already past 0x3E0, which moves it backwards | IO16 requests of alignment 0xF and lengths 0x3B0, 0x10, 0x10 packed from 0 with VGA aliasing reserved: the second goes to 0x3E0, the third starts at 0x3F0 and is moved back to 0x3E0, on top of the second | the start only moves forward, to the next free position past the VGA alias | not executed | PciTree.VgaSkipOverlapAsWritten | PciTree.SkipVgaApertureFixed |
| Bus/Pci/PciBusDxe/PciResourceSupport.c:1237-1239 | ProgramBar calls ProgramVfBar for a virtual-function node and then falls through into the physical BAR switch | a VF node for VF BAR 0 (register 0x184) at Base 0x8000_0000, offset 0x4000: the VF address is also written to the physical BAR0 register 0x10 | return after programming the VF BAR | not executed | PciProgram.VfBarOverwritesPhysicalBar | PciProgram.ProgramBar |
| Universal/VariablePei/Variable.c:528 | FindVariable's walk continues while `Variable <= EndPtr`, while PeiGetNextVariableName stops at `Variable >= EndPtr` | a 16-byte store (StartPtr == EndPtr) with an added, matching header at EndPtr: FindVariable returns it | stop before EndPtr, as the enumeration does | not executed | VarStore.EndPtrAccepted | VarStore.FindVariable |
| Bus/Pci/PciBusDxe/PciRomTable.c:66-74 | the capacity is grown by 0x20 before AllocatePool, and stays grown when the allocation fails | a failed first addition leaves capacity 0x20 with no table; the next addition writes entry 0 through the NULL table | grow the capacity only once the new buffer is allocated | not executed | RomTable.AddAfterFailedGrowthOverflows | RomTable.AddImageMapping |
