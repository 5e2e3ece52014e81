/**
 * The earlier simulator, without page replacement: frames are handed out
 * in order on first use, and a miss once every frame is in use ends the
 * run with status 1 ("Out of physical frames"). The loops are proved
 * against `FirstUses`.
 */
module EarlyMain {
  import opened Bits
  import opened Layout
  import opened Levels
  import opened Wrappers
  import opened PageTables
  import opened Simulator
  import opened Runs
  import opened FirstUse

  /** The table of the earlier program after the pages `seen` have been mapped. */
  ghost predicate Ready(pt: PageTable, seen: seq<nat>)
    reads pt, pt.Repr
  {
    && pt.Valid() && pt.rootLevel != null && WidthsOk(pt.levelBits)
    && HandedOut(pt.levelBits, pt.slots, seen)
  }

  // ---------------------------------------------------------------------
  // The table the earlier program builds
  // ---------------------------------------------------------------------

  /** The earlier `initFromLevelBits` as written sizes the geometry but
      never allocates the root. On such a table `insertMapForVpn2Pfn`
      returns at once, so the search that follows a miss still finds
      nothing, and the earlier `run_va2pa` then reads the frame through a
      null mapping. */
  method RootlessInsertLost(bits: seq<int>, va: Word, frame: int) returns (found: Option<SlotRef>)
    requires WidthsOk(bits)
    ensures found.None?
  {
    var pt := new PageTable();
    pt.InitFromLevelBitsNoRoot(bits);
    pt.InsertMapForVpn2Pfn(va, frame);
    found := pt.SearchMappedPfn(va);
  }

  /** With the root allocated, as the later `initFromLevelBits` does, the
      search after an insert finds the valid entry holding the frame. The
      earlier program is modelled on this table. */
  method RootedInsertFound(bits: seq<int>, va: Word, frame: int) returns (found: Option<SlotRef>)
    requires WidthsOk(bits)
    ensures found.Some? && found.value.index < found.value.table.Length
    ensures found.value.table[found.value.index] == Mapping(frame, true)
  {
    var pt := new PageTable();
    pt.InitFromLevelBits(bits);
    pt.InsertMapForVpn2Pfn(va, frame);
    found := pt.SearchMappedPfn(va);
  }

  // ---------------------------------------------------------------------
  // One access
  // ---------------------------------------------------------------------

  /** What one access of the earlier program does. */
  datatype Step = Mapped(pfn: int, hit: bool) | OutOfFrames

  /** The loop body of the earlier `run_va2pa` and `run_vpns_pfn`: a hit
      keeps everything; a miss with a frame left maps the page to
      `nextFreePfn` and moves the counter on; a miss with none left fails. */
  method AccessWithoutReplacement(pt: PageTable, vaddr: Word, nextFreePfn: int, numFrames: int, ghost seen: seq<nat>)
    returns (step: Step, nextFree: int, ghost seen': seq<nat>)
    requires Ready(pt, seen) && nextFreePfn == |seen|
    modifies pt`nodesAt, pt`levelPath, pt`childrenPath, pt`mappingsPath, pt`slots, pt`Repr, pt.Repr
    ensures fresh(pt.Repr - old(pt.Repr))
    ensures seen' == (if step.Mapped? && !step.hit then seen + [VpnOf(pt.levelBits, vaddr)] else seen)
    ensures Ready(pt, seen') && nextFree == |seen'|
    ensures step.OutOfFrames? <==> VpnOf(pt.levelBits, vaddr) !in seen && nextFreePfn >= numFrames
    ensures step.OutOfFrames? ==> pt.slots == old(pt.slots) && nextFree == nextFreePfn
    ensures step.Mapped? ==> (step.hit <==> VpnOf(pt.levelBits, vaddr) in seen)
    ensures step.Mapped? && step.hit ==>
      && pt.slots == old(pt.slots) && nextFree == nextFreePfn
      && 0 <= step.pfn < |seen| && seen[step.pfn] == VpnOf(pt.levelBits, vaddr)
    ensures step.Mapped? && !step.hit ==>
      && nextFree == nextFreePfn + 1 && step.pfn == nextFreePfn < numFrames
      && pt.slots == old(pt.slots)[PathOf(pt.levelBits, vaddr) := step.pfn]
    ensures step.Mapped? ==> pt.Translate(vaddr) == Some(step.pfn)
  {
    TranslatesToPosition(pt.levelBits, pt.slots, seen, vaddr);
    var mapping := pt.SearchMappedPfn(vaddr);
    if mapping.None? {
      if nextFreePfn >= numFrames {
        return OutOfFrames, nextFreePfn, seen;
      }
      ghost var slots0 := pt.slots;
      mapping := MapPage(pt, vaddr, nextFreePfn);
      HandedOutAfterMiss(pt.levelBits, slots0, seen, vaddr);
      step, nextFree := Mapped(mapping.value.table[mapping.value.index].pfn, false), nextFreePfn + 1;
      seen' := seen + [VpnOf(pt.levelBits, vaddr)];
    } else {
      step, nextFree, seen' := Mapped(mapping.value.table[mapping.value.index].pfn, true), nextFreePfn, seen;
    }
  }

  /** The loop body of the earlier `run_va2pa`: the access, then on success
      the physical address of `vaddr` in the frame it got. */
  method TranslateWithoutReplacement(pt: PageTable, vaddr: Word, nextFreePfn: int, numFrames: int, ghost seen: seq<nat>)
    returns (step: Step, nextFree: int, paddr: Word, ghost seen': seq<nat>)
    requires Ready(pt, seen) && nextFreePfn == |seen|
    modifies pt`nodesAt, pt`levelPath, pt`childrenPath, pt`mappingsPath, pt`slots, pt`Repr, pt.Repr
    ensures fresh(pt.Repr - old(pt.Repr))
    ensures seen' == (if step.Mapped? && !step.hit then seen + [VpnOf(pt.levelBits, vaddr)] else seen)
    ensures Ready(pt, seen') && nextFree == |seen'|
    ensures step.OutOfFrames? <==> VpnOf(pt.levelBits, vaddr) !in seen && nextFreePfn >= numFrames
    ensures step.OutOfFrames? ==> nextFree == nextFreePfn
    ensures step.Mapped? ==> (step.hit <==> VpnOf(pt.levelBits, vaddr) in seen)
    ensures step.Mapped? && step.hit ==>
      && nextFree == nextFreePfn
      && 0 <= step.pfn < |seen| && seen[step.pfn] == VpnOf(pt.levelBits, vaddr)
    ensures step.Mapped? && !step.hit ==>
      && nextFree == nextFreePfn + 1 && step.pfn == nextFreePfn < numFrames
    ensures step.Mapped? ==> step.pfn >= 0 && paddr == PhysicalAddress(pt.levelBits, step.pfn, vaddr)
  {
    step, nextFree, seen' := AccessWithoutReplacement(pt, vaddr, nextFreePfn, numFrames, seen);
    if step.Mapped? {
      paddr := PhysicalAddressOf(pt, step.pfn, vaddr);
    } else {
      paddr := 0;
    }
  }

  // ---------------------------------------------------------------------
  // The trace loops
  // ---------------------------------------------------------------------

  /** One more translated address extends `Translated` by its frame. */
  lemma TranslatedExtended(levelBits: seq<nat>, trace: seq<Word>, frames: seq<int>, paddrs: seq<Word>, pfn: int, paddr: Word)
    requires WidthsOk(levelBits) && Translated(levelBits, trace, frames, paddrs) && |paddrs| < |trace|
    requires pfn >= 0 && paddr == PhysicalAddress(levelBits, pfn, trace[|paddrs|])
    ensures Translated(levelBits, trace, frames + [pfn], paddrs + [paddr])
  {
    forall k | 0 <= k < |paddrs|
      ensures (frames + [pfn])[k] == frames[k] && (paddrs + [paddr])[k] == paddrs[k]
    {
    }
  }

  /** One more listed address extends `PiecesListed` by its frame. */
  lemma PiecesListedExtended(levelBits: seq<nat>, trace: seq<Word>, frames: seq<int>, records: seq<PiecesRecord>,
                             pieces: seq<nat>, pfn: int)
    requires WidthsOk(levelBits) && PiecesListed(levelBits, trace, frames, records) && |records| < |trace|
    requires pieces == PathOf(levelBits, trace[|records|])
    ensures PiecesListed(levelBits, trace, frames + [pfn], records + [PiecesRecord(pieces, pfn)])
  {
    forall k | 0 <= k < |records|
      ensures (frames + [pfn])[k] == frames[k] && (records + [PiecesRecord(pieces, pfn)])[k] == records[k]
    {
    }
  }

  /** The loop of the earlier `run_va2pa`: the physical address of every
      access until the trace or the limit ends, or until a new page finds
      no free frame. */
  method RunVa2paWithoutReplacement(pt: PageTable, trace: seq<Word>, numAccesses: int, numFrames: int)
    returns (paddrs: seq<Word>, ghost frames: seq<int>, status: int)
    requires Ready(pt, [])
    modifies pt`nodesAt, pt`levelPath, pt`childrenPath, pt`mappingsPath, pt`slots, pt`Repr, pt.Repr
    ensures WidthsOk(pt.levelBits) && RanWithoutReplacement(pt.levelBits, trace, numAccesses, numFrames, frames, status)
    ensures Translated(pt.levelBits, trace, frames, paddrs)
  {
    ghost var seen;
    paddrs, frames, seen, status := Va2paLoop(pt, trace, numAccesses, numFrames);
    RunEnds(pt.levelBits, trace, numAccesses, numFrames, seen, frames, status);
  }

  /** The loop of `RunVa2paWithoutReplacement`, with the pages `seen` it
      handed frames to. */
  method Va2paLoop(pt: PageTable, trace: seq<Word>, numAccesses: int, numFrames: int)
    returns (paddrs: seq<Word>, ghost frames: seq<int>, ghost seen: seq<nat>, status: int)
    requires Ready(pt, [])
    modifies pt`nodesAt, pt`levelPath, pt`childrenPath, pt`mappingsPath, pt`slots, pt`Repr, pt.Repr
    ensures WidthsOk(pt.levelBits) && Progress(pt.levelBits, trace, numAccesses, numFrames, seen, frames)
    ensures Translated(pt.levelBits, trace, frames, paddrs)
    ensures status == 0 || status == 1
    ensures status == 0 ==> !((numAccesses <= 0 || |frames| < numAccesses) && |frames| < |trace|)
    ensures status == 1 ==>
      && |frames| < |trace| && (numAccesses > 0 ==> |frames| < numAccesses)
      && VpnOf(pt.levelBits, trace[|frames|]) !in seen && |seen| >= numFrames
  {
    ghost var levelBits := pt.levelBits;
    seen := [];
    var count := 0;
    var nextFreePfn := 0;
    paddrs, frames, status := [], [], 0;
    while (numAccesses <= 0 || count < numAccesses) && count < |trace|
      invariant |frames| == count && nextFreePfn == |seen|
      invariant Ready(pt, seen) && fresh(pt.Repr - old(pt.Repr)) && pt.levelBits == levelBits
      invariant Progress(levelBits, trace, numAccesses, numFrames, seen, frames)
      invariant Translated(levelBits, trace, frames, paddrs)
    {
      var vaddr := trace[count];
      var step, paddr;
      ghost var seen';
      step, nextFreePfn, paddr, seen' := TranslateWithoutReplacement(pt, vaddr, nextFreePfn, numFrames, seen);
      if step.OutOfFrames? {
        status := 1;
        break;
      }
      ProgressStep(levelBits, trace, numAccesses, numFrames, seen, frames, step.pfn);
      seen := seen';
      TranslatedExtended(levelBits, trace, frames, paddrs, step.pfn, paddr);
      paddrs, frames := paddrs + [paddr], frames + [step.pfn];
      count := count + 1;
    }
  }

  /** The loop of the earlier `run_vpns_pfn`: the indices of every access
      and its frame, with the same stopping rule. The recorded frame is
      never -1, since every access that is recorded has a valid mapping. */
  method RunVpnsPfnWithoutReplacement(pt: PageTable, trace: seq<Word>, numAccesses: int, numFrames: int)
    returns (records: seq<PiecesRecord>, ghost frames: seq<int>, status: int)
    requires Ready(pt, [])
    modifies pt`nodesAt, pt`levelPath, pt`childrenPath, pt`mappingsPath, pt`slots, pt`Repr, pt.Repr
    ensures WidthsOk(pt.levelBits) && RanWithoutReplacement(pt.levelBits, trace, numAccesses, numFrames, frames, status)
    ensures PiecesListed(pt.levelBits, trace, frames, records)
  {
    ghost var seen;
    records, frames, seen, status := VpnsPfnLoop(pt, trace, numAccesses, numFrames);
    RunEnds(pt.levelBits, trace, numAccesses, numFrames, seen, frames, status);
  }

  /** The loop of `RunVpnsPfnWithoutReplacement`, with the pages `seen` it
      handed frames to. */
  method VpnsPfnLoop(pt: PageTable, trace: seq<Word>, numAccesses: int, numFrames: int)
    returns (records: seq<PiecesRecord>, ghost frames: seq<int>, ghost seen: seq<nat>, status: int)
    requires Ready(pt, [])
    modifies pt`nodesAt, pt`levelPath, pt`childrenPath, pt`mappingsPath, pt`slots, pt`Repr, pt.Repr
    ensures WidthsOk(pt.levelBits) && Progress(pt.levelBits, trace, numAccesses, numFrames, seen, frames)
    ensures PiecesListed(pt.levelBits, trace, frames, records)
    ensures status == 0 || status == 1
    ensures status == 0 ==> !((numAccesses <= 0 || |frames| < numAccesses) && |frames| < |trace|)
    ensures status == 1 ==>
      && |frames| < |trace| && (numAccesses > 0 ==> |frames| < numAccesses)
      && VpnOf(pt.levelBits, trace[|frames|]) !in seen && |seen| >= numFrames
  {
    ghost var levelBits := pt.levelBits;
    seen := [];
    var count := 0;
    var nextFreePfn := 0;
    records, frames, status := [], [], 0;
    while (numAccesses <= 0 || count < numAccesses) && count < |trace|
      invariant |frames| == count && nextFreePfn == |seen|
      invariant Ready(pt, seen) && fresh(pt.Repr - old(pt.Repr)) && pt.levelBits == levelBits
      invariant Progress(levelBits, trace, numAccesses, numFrames, seen, frames)
      invariant PiecesListed(levelBits, trace, frames, records)
    {
      var vaddr := trace[count];
      var pieces := VpnPieces(pt, vaddr);
      var step;
      ghost var seen';
      step, nextFreePfn, seen' := AccessWithoutReplacement(pt, vaddr, nextFreePfn, numFrames, seen);
      if step.OutOfFrames? {
        status := 1;
        break;
      }
      ProgressStep(levelBits, trace, numAccesses, numFrames, seen, frames, step.pfn);
      seen := seen';
      PiecesListedExtended(levelBits, trace, frames, records, pieces, step.pfn);
      records, frames := records + [PiecesRecord(pieces, step.pfn)], frames + [step.pfn];
      count := count + 1;
    }
  }
}
