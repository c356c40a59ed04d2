/**
 * The host-bridge resource allocation loop: PciHostBridgeResourceAllocator.
 *
 * Each attempt builds the resource maps of every root bridge, enlarges the
 * Mem32 request for option ROMs (first attempt only), hands the request to
 * the host bridge and asks it to allocate. A failure either ends the
 * allocation or, with hot-plug support, frees everything and retries with
 * the adjusted request. Once an attempt succeeds every root bridge is
 * programmed and the allocation phase ends.
 *
 * The host-bridge protocol and the callees whose bodies are not part of
 * this model (GetRootBridgeByHandle, GetMaxOptionRomSize,
 * ConstructAcpiResourceRequestor, SubmitResources, NotifyPhase,
 * GetProposedResources, PciHostBridgeAdjustAllocation) are oracle answers
 * given per attempt; the run records the phases it goes through as events.
 */
module PciAlloc {
  import opened Efi

  /** What the loop learns about one root bridge while building its request. */
  datatype RootAnswer = RootAnswer(
    found: bool,              // GetRootBridgeByHandle returned a device
    mem32Length: nat,         // Mem32Bridge->Length after CreateResourceMap
    mem32Alignment: nat,      // Mem32Bridge->Alignment after CreateResourceMap
    maxOptionRomSize: nat,    // GetMaxOptionRomSize
    construct: Status,        // ConstructAcpiResourceRequestor
    submit: Status)           // SubmitResources

  /** What the loop learns about one root bridge when it asks for the proposed resources. */
  datatype ProposedAnswer = ProposedAnswer(found: bool, proposed: Status)

  /** The answers of one pass of the main loop. */
  datatype Attempt = Attempt(
    roots: seq<RootAnswer>,
    allocate: Status,                  // NotifyPhase(AllocateResources)
    proposed: seq<ProposedAnswer>,     // only asked for after a failed allocation with hot-plug
    adjust: Status)                    // PciHostBridgeAdjustAllocation

  datatype Phase = AllocateResources | FreeResources | SetResources | EndResourceAllocation

  /** The Mem32 request of a root bridge: aperture length, alignment and the ROM size it records. */
  datatype Mem32Request = Mem32Request(length: nat, alignment: nat, romSize: nat)

  datatype Event =
    | Requested(request: Mem32Request)
    | Submitted
    | PoolsDestroyed
    | Notified(phase: Phase)
    | Programmed

  /** How the main loop left off. */
  datatype Outcome =
    | Done(status: Status)    // the allocator returned
    | Proceed                 // an attempt succeeded: go on to program
    | Exhausted               // the answers ran out while still retrying

  function Max(a: nat, b: nat): nat
  {
    if a >= b then a else b
  }

  // ---------------------------------------------------------------------
  // Option-ROM enlargement

  /**
   * The root bridge's ROM size is the Mem32 length; on the first attempt a
   * larger option ROM enlarges the Mem32 request to the ROM size and raises
   * its alignment to at least the ROM size minus one.
   */
  function EnlargeForRom(length: nat, alignment: nat, maxRom: nat, reAllocate: bool): (r: Mem32Request)
    ensures r.romSize == r.length
    ensures r.length >= length && r.alignment >= alignment
    ensures reAllocate ==> r == Mem32Request(length, alignment, length)
    ensures !reAllocate ==> r.length == Max(length, maxRom)
    ensures !reAllocate && maxRom > length ==> r.alignment == Max(alignment, maxRom - 1)
    ensures maxRom <= length ==> r == Mem32Request(length, alignment, length)
  {
    if !reAllocate && maxRom > length then
      Mem32Request(maxRom, if alignment < maxRom - 1 then maxRom - 1 else alignment, maxRom)
    else
      Mem32Request(length, alignment, length)
  }

  // ---------------------------------------------------------------------
  // Building and submitting the requests

  /**
   * The root-bridge loop of one attempt: the status it stops with, the
   * events, and the Mem32 request of each root bridge it reached.
   */
  function SubmitRoots(roots: seq<RootAnswer>, reAllocate: bool): (r: (Status, seq<Event>, seq<Mem32Request>))
    ensures |r.2| <= |roots|
    ensures forall k :: 0 <= k < |r.2| ==>
              r.2[k] == EnlargeForRom(roots[k].mem32Length, roots[k].mem32Alignment, roots[k].maxOptionRomSize, reAllocate)
    ensures r.0 == Success <==> forall k :: 0 <= k < |roots| ==> RootSubmits(roots[k])
    ensures r.0 == Success ==> |r.2| == |roots| && PoolsDestroyed !in r.1
    ensures r.0 != Success ==> r.0.IsError()
    ensures r.0.IsError() && r.0 != NotFound ==> |r.1| > 0 && r.1[|r.1| - 1] == PoolsDestroyed
    ensures forall k :: 0 <= k < |r.1| ==> !r.1[k].Notified?
  {
    if |roots| == 0 then (Success, [], [])
    else
      var root := roots[0];
      if !root.found then (NotFound, [], [])
      else
        var request := EnlargeForRom(root.mem32Length, root.mem32Alignment, root.maxOptionRomSize, reAllocate);
        var status := if root.construct == Success then root.submit else root.construct;
        var events := [Requested(request)] + (if root.construct == Success then [Submitted] else []);
        if status.IsError() then (status, events + [PoolsDestroyed], [request])
        else
          var rest := SubmitRoots(roots[1..], reAllocate);
          assert forall k :: 1 <= k < |roots| ==> roots[k] == roots[1..][k - 1];
          (rest.0, events + rest.1, [request] + rest.2)
  }

  /** A root bridge is found and both its request and its submission succeed. */
  predicate RootSubmits(root: RootAnswer)
  {
    root.found && root.construct == Success && root.submit == Success
  }

  /** GetProposedResources for every root bridge: the first failure, or success. */
  function ProposeRoots(roots: seq<ProposedAnswer>): (r: Status)
    ensures r == Success <==> forall k :: 0 <= k < |roots| ==> roots[k].found && !roots[k].proposed.IsError()
    ensures r != Success ==> r.IsError()
  {
    if |roots| == 0 then Success
    else if !roots[0].found then NotFound
    else if roots[0].proposed.IsError() then roots[0].proposed
    else
      assert forall k :: 1 <= k < |roots| ==> roots[k] == roots[1..][k - 1];
      ProposeRoots(roots[1..])
  }

  // ---------------------------------------------------------------------
  // The main loop

  /**
   * Pass i of the main loop (ReAllocate is set from the second pass on):
   * how it ends and the events on the way.
   */
  function MainLoop(attempts: seq<Attempt>, i: nat, hotplug: bool): (r: (Outcome, seq<Event>))
    ensures r.0.Done? ==> r.0.status.IsError()
    ensures !hotplug && i < |attempts| ==> !r.0.Exhausted?
    decreases |attempts| - i
  {
    if i >= |attempts| then (Exhausted, [])
    else
      var a := attempts[i];
      var (submitted, events, _) := SubmitRoots(a.roots, i > 0);
      if submitted.IsError() then (Done(submitted), events)
      else
        var notified := events + [Notified(AllocateResources)];
        if !a.allocate.IsError() then (Proceed, notified)
        else if !hotplug then (Done(OutOfResources), notified)
        else
          var proposed := ProposeRoots(a.proposed);
          if proposed.IsError() then (Done(proposed), notified)
          else
            var freed := notified + [PoolsDestroyed, Notified(FreeResources)];
            if a.adjust.IsError() then (Done(a.adjust), freed)
            else
              var rest := MainLoop(attempts, i + 1, hotplug);
              (rest.0, freed + rest.1)
  }

  /** The set-resources loop: every root bridge found and its proposal read, then programmed. */
  function ProgramRoots(roots: seq<ProposedAnswer>): (r: (Status, seq<Event>))
    ensures r.0 == Success <==> forall k :: 0 <= k < |roots| ==> roots[k].found && !roots[k].proposed.IsError()
    ensures r.0 != Success ==> r.0.IsError()
    ensures r.0 == Success ==> |r.1| == |roots| && forall k :: 0 <= k < |r.1| ==> r.1[k] == Programmed
  {
    if |roots| == 0 then (Success, [])
    else if !roots[0].found then (NotFound, [])
    else if roots[0].proposed.IsError() then (roots[0].proposed, [])
    else
      var rest := ProgramRoots(roots[1..]);
      assert forall k :: 1 <= k < |roots| ==> roots[k] == roots[1..][k - 1];
      (rest.0, [Programmed] + rest.1)
  }

  /**
   * PciHostBridgeResourceAllocator: the status it returns (None when the
   * answers ran out while retrying) and the events of the run.
   */
  function Allocate(attempts: seq<Attempt>, hotplug: bool, setRoots: seq<ProposedAnswer>): (r: (Option<Status>, seq<Event>))
    ensures r.0.Some? ==> (r.0.value == Success || r.0.value.IsError())
    ensures r.0 == Some(Success) ==> |r.1| > 0 && r.1[|r.1| - 1] == Notified(EndResourceAllocation)
  {
    var (outcome, events) := MainLoop(attempts, 0, hotplug);
    match outcome
    case Done(s) => (Some(s), events)
    case Exhausted => (None, events)
    case Proceed =>
      var (s, programmed) := ProgramRoots(setRoots);
      var started := events + [Notified(SetResources)] + programmed;
      if s.IsError() then (Some(s), started)
      else (Some(Success), started + [PoolsDestroyed, Notified(EndResourceAllocation)])
  }

  // ---------------------------------------------------------------------
  // Properties of the loop

  /**
   * A failure to build or submit a request ends the allocator with that
   * status right after the pools are destroyed, before any phase is
   * notified: there is no retry.
   */
  lemma SubmissionFailureEnds(attempts: seq<Attempt>, hotplug: bool, setRoots: seq<ProposedAnswer>)
    requires |attempts| > 0
    requires var s := SubmitRoots(attempts[0].roots, false).0; s.IsError() && s != NotFound
    ensures var r := Allocate(attempts, hotplug, setRoots);
      && r.0 == Some(SubmitRoots(attempts[0].roots, false).0)
      && r.1 == SubmitRoots(attempts[0].roots, false).1
      && r.1[|r.1| - 1] == PoolsDestroyed
      && forall k :: 0 <= k < |r.1| ==> !r.1[k].Notified?
  {
  }

  /** Without hot-plug support a failed allocation returns OUT_OF_RESOURCES after one attempt. */
  lemma AllocationFailureWithoutHotplug(attempts: seq<Attempt>, setRoots: seq<ProposedAnswer>)
    requires |attempts| > 0
    requires SubmitRoots(attempts[0].roots, false).0 == Success
    requires attempts[0].allocate.IsError()
    ensures var r := Allocate(attempts, false, setRoots);
      r.0 == Some(OutOfResources)
      && r.1 == SubmitRoots(attempts[0].roots, false).1 + [Notified(AllocateResources)]
  {
  }

  /**
   * With hot-plug support a failed allocation whose proposals can be read
   * destroys the pools and notifies FreeResources; then the adjustment error
   * is returned, or the next attempt runs with ReAllocate set.
   */
  lemma AllocationFailureWithHotplug(attempts: seq<Attempt>, i: nat)
    requires i < |attempts|
    requires SubmitRoots(attempts[i].roots, i > 0).0 == Success
    requires attempts[i].allocate.IsError()
    requires ProposeRoots(attempts[i].proposed) == Success
    ensures var r := MainLoop(attempts, i, true);
      var freed := SubmitRoots(attempts[i].roots, i > 0).1
        + [Notified(AllocateResources), PoolsDestroyed, Notified(FreeResources)];
      && freed <= r.1
      && (attempts[i].adjust.IsError() ==> r == (Done(attempts[i].adjust), freed))
      && (!attempts[i].adjust.IsError() ==> r == (MainLoop(attempts, i + 1, true).0, freed + MainLoop(attempts, i + 1, true).1))
  {
    var events := SubmitRoots(attempts[i].roots, i > 0).1;
    assert events + [Notified(AllocateResources)] + [PoolsDestroyed, Notified(FreeResources)]
      == events + [Notified(AllocateResources), PoolsDestroyed, Notified(FreeResources)];
  }

  /**
   * The option-ROM enlargement happens on the first pass only: on a retry
   * every root bridge requests exactly its Mem32 length and alignment.
   */
  lemma RetryDoesNotEnlarge(roots: seq<RootAnswer>, k: nat)
    requires k < |SubmitRoots(roots, true).2|
    ensures SubmitRoots(roots, true).2[k] == Mem32Request(roots[k].mem32Length, roots[k].mem32Alignment, roots[k].mem32Length)
  {
  }

  /**
   * A run that succeeds went through the phases in order: AllocateResources,
   * SetResources, then EndResourceAllocation as the last event, with every
   * root bridge programmed in between.
   */
  lemma {:induction false} SuccessPhases(attempts: seq<Attempt>, hotplug: bool, setRoots: seq<ProposedAnswer>)
    requires Allocate(attempts, hotplug, setRoots).0 == Some(Success)
    ensures var r := Allocate(attempts, hotplug, setRoots).1;
      |r| >= |setRoots| + 4
      && r[|r| - 1] == Notified(EndResourceAllocation)
      && r[|r| - |setRoots| - 3] == Notified(SetResources)
      && (forall k :: |r| - |setRoots| - 2 <= k < |r| - 2 ==> r[k] == Programmed)
      && Notified(AllocateResources) in r[..|r| - |setRoots| - 3]
  {
    var (outcome, events) := MainLoop(attempts, 0, hotplug);
    ProceedNotified(attempts, 0, hotplug);
    var (s, programmed) := ProgramRoots(setRoots);
    var r := Allocate(attempts, hotplug, setRoots).1;
    assert r == events + [Notified(SetResources)] + programmed + [PoolsDestroyed, Notified(EndResourceAllocation)];
    assert r[..|r| - |setRoots| - 3] == events;
  }

  /** A pass that proceeds to programming has just notified AllocateResources. */
  lemma {:induction false} ProceedNotified(attempts: seq<Attempt>, i: nat, hotplug: bool)
    requires MainLoop(attempts, i, hotplug).0 == Proceed
    ensures var r := MainLoop(attempts, i, hotplug).1; |r| > 0 && r[|r| - 1] == Notified(AllocateResources)
    decreases |attempts| - i
  {
    var a := attempts[i];
    var (submitted, events, _) := SubmitRoots(a.roots, i > 0);
    if a.allocate.IsError() {
      ProceedNotified(attempts, i + 1, hotplug);
    }
  }
}
