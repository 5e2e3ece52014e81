/**
 * The per-access translation step of the simulator with NFU replacement
 * (the loop bodies of `run_va2pa`, `run_vpns_pfn`, `run_summary` and
 * `run_vpn2pfn_pr`): a hit, a miss that takes the next free frame, or a
 * miss that evicts the NFU victim and reuses its frame.
 *
 * The page table and the NFU state are kept in step: loaded page `i`
 * occupies frame `i`, the page table maps that page's index path to `i`,
 * and the page table has no other valid entry.
 */
module Simulator {
  import opened Bits
  import opened Radix
  import opened Layout
  import opened Levels
  import opened Wrappers
  import opened PageTables
  import opened Nfu
  import opened Policy

  /** The valid entries `slots` and the NFU pages describe the same resident
      pages: page `i` sits in frame `i` and the entry at its index path holds
      `i`, and every valid entry is the entry of the page whose frame it
      holds. */
  ghost predicate Agrees(levelBits: seq<nat>, slots: map<seq<nat>, int>, pages: seq<LoadedPage>)
    requires WidthsOk(levelBits)
  {
    PagesMapped(levelBits, slots, pages) && SlotsOwned(levelBits, slots, pages)
  }

  /** Page `i` sits in frame `i` and the entry at its index path holds `i`. */
  ghost predicate PagesMapped(levelBits: seq<nat>, slots: map<seq<nat>, int>, pages: seq<LoadedPage>)
    requires WidthsOk(levelBits)
  {
    forall i | 0 <= i < |pages| ::
      && pages[i].pfn == i && VpnInRange(levelBits, pages[i].vpn)
      && VpnPath(levelBits, pages[i].vpn) in slots
      && slots[VpnPath(levelBits, pages[i].vpn)] == i
  }

  /** Every valid entry holds the frame of a loaded page and sits at that
      page's index path. */
  ghost predicate SlotsOwned(levelBits: seq<nat>, slots: map<seq<nat>, int>, pages: seq<LoadedPage>)
    requires WidthsOk(levelBits)
  {
    forall q | q in slots :: 0 <= slots[q] < |pages| && VpnPath(levelBits, pages[slots[q]].vpn) == q
  }

  /** Two page lists that differ at most in bitstrings and access times. */
  ghost predicate SameResidents(pages: seq<LoadedPage>, pages': seq<LoadedPage>)
  {
    && |pages'| == |pages|
    && forall i | 0 <= i < |pages| :: pages'[i].pfn == pages[i].pfn && pages'[i].vpn == pages[i].vpn
  }

  /** The page table and the NFU state between accesses, with `nextFreePfn`
      frames handed out so far. */
  ghost predicate Consistent(pt: PageTable, nfu: NfuState, nextFreePfn: int)
    reads pt, pt.Repr, nfu
  {
    && pt.Valid() && nfu.Valid() && nfu !in pt.Repr
    && pt.rootLevel != null && WidthsOk(pt.levelBits)
    && 1 <= nfu.maxFrames
    && nextFreePfn == |nfu.pages| <= nfu.maxFrames
    && Agrees(pt.levelBits, pt.slots, nfu.pages)
  }

  // ---------------------------------------------------------------------
  // Agreement, on values
  // ---------------------------------------------------------------------

  /** Index paths of in-range page numbers are distinct. */
  lemma VpnPathInjective(levelBits: seq<nat>, a: nat, b: nat)
    requires WidthsOk(levelBits) && VpnInRange(levelBits, a) && VpnInRange(levelBits, b)
    ensures VpnPath(levelBits, a) == VpnPath(levelBits, b) <==> a == b
  {
    PathVpnRoundTrip(levelBits, a, []);
    PathVpnRoundTrip(levelBits, b, []);
  }

  /** In agreeing states an address translates exactly when the NFU state
      has its page loaded, and then to that page's frame. */
  lemma TranslatesToIndex(levelBits: seq<nat>, slots: map<seq<nat>, int>, pages: seq<LoadedPage>,
                          vpnToIndex: map<nat, nat>, va: Word)
    requires WidthsOk(levelBits) && Agrees(levelBits, slots, pages) && Indexed(pages, vpnToIndex)
    ensures TranslateIn(levelBits, slots, va).Some? <==> VpnOf(levelBits, va) in vpnToIndex
    ensures VpnOf(levelBits, va) in vpnToIndex ==>
      TranslateIn(levelBits, slots, va) == Some(vpnToIndex[VpnOf(levelBits, va)])
  {
    var vpn := VpnOf(levelBits, va);
    var path := PathOf(levelBits, va);
    VpnBound(levelBits, va);
    assert path == VpnPath(levelBits, vpn);
    if path in slots {
      var k := slots[path];
      VpnPathInjective(levelBits, pages[k].vpn, vpn);
    }
    if vpn in vpnToIndex {
      assert pages[vpnToIndex[vpn]].vpn == vpn;
    }
  }

  /** The scan for a loaded page finds the index the page-to-index map
      holds, and nothing for a page the map does not hold. */
  lemma FoundAtIndex(pages: seq<LoadedPage>, vpnToIndex: map<nat, nat>, vpn: nat)
    requires Indexed(pages, vpnToIndex)
    ensures FindPage(pages, vpn) == if vpn in vpnToIndex then Some(vpnToIndex[vpn]) else None
  {
    if vpn in vpnToIndex {
      assert pages[vpnToIndex[vpn]].vpn == vpn;
    }
  }

  /** A miss that takes a free frame keeps the states agreeing. */
  lemma AgreesAfterFill(levelBits: seq<nat>, slots: map<seq<nat>, int>, pages: seq<LoadedPage>, va: Word, time: nat)
    requires WidthsOk(levelBits) && Agrees(levelBits, slots, pages)
    requires PathOf(levelBits, va) !in slots
    ensures Agrees(levelBits, slots[PathOf(levelBits, va) := |pages|],
                   pages + [LoadedPage(|pages|, VpnOf(levelBits, va), MSB, time)])
  {
    var slots' := slots[PathOf(levelBits, va) := |pages|];
    var pages' := pages + [LoadedPage(|pages|, VpnOf(levelBits, va), MSB, time)];
    VpnBound(levelBits, va);
    forall q | q in slots'
      ensures 0 <= slots'[q] < |pages'| && VpnPath(levelBits, pages'[slots'[q]].vpn) == q
    {
      if q != PathOf(levelBits, va) {
        assert pages'[slots[q]] == pages[slots[q]];
      }
    }
  }

  /** A miss that evicts page `v` and reuses its frame keeps the states
      agreeing: the victim's entry is gone and the new page has the frame. */
  lemma AgreesAfterReplace(levelBits: seq<nat>, slots: map<seq<nat>, int>, pages: seq<LoadedPage>,
                           v: int, va: Word, time: nat)
    requires WidthsOk(levelBits) && Agrees(levelBits, slots, pages)
    requires 0 <= v < |pages| && PathOf(levelBits, va) !in slots
    ensures Agrees(levelBits, (slots - {VpnPath(levelBits, pages[v].vpn)})[PathOf(levelBits, va) := v],
                   pages[v := LoadedPage(pages[v].pfn, VpnOf(levelBits, va), MSB, time)])
  {
    var victimPath := VpnPath(levelBits, pages[v].vpn);
    var slots' := (slots - {victimPath})[PathOf(levelBits, va) := v];
    var pages' := pages[v := LoadedPage(pages[v].pfn, VpnOf(levelBits, va), MSB, time)];
    VpnBound(levelBits, va);
    forall i | 0 <= i < |pages'|
      ensures pages'[i].pfn == i && VpnInRange(levelBits, pages'[i].vpn)
      ensures VpnPath(levelBits, pages'[i].vpn) in slots' && slots'[VpnPath(levelBits, pages'[i].vpn)] == i
    {
      if i != v {
        assert pages'[i] == pages[i];
        assert slots[VpnPath(levelBits, pages[i].vpn)] == i != v == slots[victimPath];
      }
    }
    forall q | q in slots'
      ensures 0 <= slots'[q] < |pages'| && VpnPath(levelBits, pages'[slots'[q]].vpn) == q
    {
      if q != PathOf(levelBits, va) {
        assert q in slots && q != victimPath;
        assert pages'[slots[q]] == pages[slots[q]];
      }
    }
  }

  /** Aging and access times do not disturb the agreement. */
  lemma AgreesKept(levelBits: seq<nat>, slots: map<seq<nat>, int>, pages: seq<LoadedPage>, pages': seq<LoadedPage>)
    requires WidthsOk(levelBits) && Agrees(levelBits, slots, pages) && SameResidents(pages, pages')
    ensures Agrees(levelBits, slots, pages')
  {
    forall i | 0 <= i < |pages'|
      ensures pages'[i].pfn == i && VpnInRange(levelBits, pages'[i].vpn)
    {
      assert pages'[i].vpn == pages[i].vpn;
    }
  }

  // ---------------------------------------------------------------------
  // One access
  // ---------------------------------------------------------------------

  /** One access of the trace: `beforeAccessNFU`, then the lookup and the
      hit, free-frame or eviction branch. The NFU state, the next free
      frame and what the access did are those of the policy's `Step`;
      afterwards `vaddr` translates to the frame reported, and only the
      entries of the page and of an evicted page change. */
  method Access(pt: PageTable, nfu: NfuState, vaddr: Word, nextFreePfn: int)
    returns (outcome: Outcome, pfn: int, nextFree: int)
    requires Consistent(pt, nfu, nextFreePfn)
    modifies pt`nodesAt, pt`levelPath, pt`childrenPath, pt`mappingsPath, pt`slots, pt`Repr, pt.Repr, nfu
    ensures Consistent(pt, nfu, nextFree) && fresh(pt.Repr - old(pt.Repr))
    ensures (Memory(nfu.pages, nfu.accessed, nfu.currentTime, nfu.timeSinceTick, nextFree), Event(outcome, pfn))
         == Step(old(Memory(nfu.pages, nfu.accessed, nfu.currentTime, nfu.timeSinceTick, nextFreePfn)), nfu.maxFrames, nfu.interval, VpnOf(pt.levelBits, vaddr))
    ensures outcome.Hit? <==> old(pt.Translate(vaddr)).Some?
    ensures pt.slots == (if outcome.Replaced? then old(pt.slots) - {VpnPath(pt.levelBits, outcome.victimVpn)}
                         else old(pt.slots))[PathOf(pt.levelBits, vaddr) := pfn]
  {
    ClockTick(pt, nfu, nextFreePfn);
    outcome, pfn, nextFree := Resolve(pt, nfu, vaddr, nextFreePfn);
  }

  /** `onBeforeAccessNFU` inside a consistent simulator: the clocks move as
      the policy's `Clocked` says and the page table still agrees. */
  method ClockTick(pt: PageTable, nfu: NfuState, nextFreePfn: int)
    requires Consistent(pt, nfu, nextFreePfn)
    modifies nfu
    ensures Consistent(pt, nfu, nextFreePfn)
    ensures Memory(nfu.pages, nfu.accessed, nfu.currentTime, nfu.timeSinceTick, nextFreePfn)
         == Clocked(old(Memory(nfu.pages, nfu.accessed, nfu.currentTime, nfu.timeSinceTick, nextFreePfn)), nfu.interval)
  {
    ghost var pages0 := nfu.pages;
    nfu.BeforeAccess();
    AgreesKept(pt.levelBits, pt.slots, pages0, nfu.pages);
  }

  /** The lookup and the three branches, after the NFU clocks have moved:
      a hit records the access; a miss with a free frame fills it; a miss
      with every frame in use evicts the NFU victim and reuses its frame.
      The NFU state, the next free frame and what the access did are those
      of the policy's `Chosen`. */
  method Resolve(pt: PageTable, nfu: NfuState, vaddr: Word, nextFreePfn: int)
    returns (outcome: Outcome, pfn: int, nextFree: int)
    requires Consistent(pt, nfu, nextFreePfn)
    modifies pt`nodesAt, pt`levelPath, pt`childrenPath, pt`mappingsPath, pt`slots, pt`Repr, pt.Repr, nfu
    ensures Consistent(pt, nfu, nextFree) && fresh(pt.Repr - old(pt.Repr))
    ensures (Memory(nfu.pages, nfu.accessed, nfu.currentTime, nfu.timeSinceTick, nextFree), Event(outcome, pfn))
         == Chosen(old(Memory(nfu.pages, nfu.accessed, nfu.currentTime, nfu.timeSinceTick, nextFreePfn)), nfu.maxFrames, VpnOf(pt.levelBits, vaddr))
    ensures outcome.Hit? <==> old(pt.Translate(vaddr)).Some?
    ensures pt.slots == (if outcome.Replaced? then old(pt.slots) - {VpnPath(pt.levelBits, outcome.victimVpn)}
                         else old(pt.slots))[PathOf(pt.levelBits, vaddr) := pfn]
  {
    var vpn := Shr(vaddr, pt.offsetBits);
    var mapping := pt.SearchMappedPfn(vaddr);
    if mapping.Some? && mapping.value.table[mapping.value.index].valid {
      pfn := mapping.value.table[mapping.value.index].pfn;
      RecordHit(pt, nfu, vaddr, vpn, pfn, nextFreePfn);
      outcome, nextFree := Hit, nextFreePfn;
    } else {
      outcome, pfn, nextFree := ResolveMiss(pt, nfu, vaddr, vpn, nextFreePfn);
    }
  }

  /** The two miss branches of `Resolve`: a free frame while the NFU state
      is not full, else the victim's frame. */
  method ResolveMiss(pt: PageTable, nfu: NfuState, vaddr: Word, vpn: nat, nextFreePfn: int)
    returns (outcome: Outcome, pfn: int, nextFree: int)
    requires Consistent(pt, nfu, nextFreePfn) && vpn == VpnOf(pt.levelBits, vaddr)
    requires pt.Translate(vaddr).None?
    modifies pt`nodesAt, pt`levelPath, pt`childrenPath, pt`mappingsPath, pt`slots, pt`Repr, pt.Repr, nfu
    ensures Consistent(pt, nfu, nextFree) && fresh(pt.Repr - old(pt.Repr))
    ensures (Memory(nfu.pages, nfu.accessed, nfu.currentTime, nfu.timeSinceTick, nextFree), Event(outcome, pfn)) == Chosen(old(Memory(nfu.pages, nfu.accessed, nfu.currentTime, nfu.timeSinceTick, nextFreePfn)), nfu.maxFrames, vpn)
    ensures !outcome.Hit?
    ensures pt.slots == (if outcome.Replaced? then old(pt.slots) - {VpnPath(pt.levelBits, outcome.victimVpn)}
                         else old(pt.slots))[PathOf(pt.levelBits, vaddr) := pfn]
  {
    var mapping;
    if !nfu.IsFull() {
      mapping := FillFrame(pt, nfu, vaddr, vpn, nextFreePfn);
      pfn := mapping.value.table[mapping.value.index].pfn;
      outcome, nextFree := Filled, nextFreePfn + 1;
    } else {
      var victimPfn, victimVpn, victimBitstring;
      victimPfn, victimVpn, victimBitstring, mapping := ReplaceFrame(pt, nfu, vaddr, vpn, nextFreePfn);
      pfn := mapping.value.table[mapping.value.index].pfn;
      outcome, nextFree := Replaced(victimVpn, victimBitstring), nextFreePfn;
    }
  }

  /** A hit: `onHitNFU` records the access on the page's NFU entry, whose
      index is the page's frame; the page table is not touched. */
  method RecordHit(pt: PageTable, nfu: NfuState, vaddr: Word, vpn: nat, pfn: int, nextFreePfn: int)
    requires Consistent(pt, nfu, nextFreePfn) && vpn == VpnOf(pt.levelBits, vaddr)
    requires pt.Translate(vaddr) == Some(pfn)
    modifies nfu
    ensures Consistent(pt, nfu, nextFreePfn) && 0 <= pfn < |nfu.pages|
    ensures pt.slots == old(pt.slots)[PathOf(pt.levelBits, vaddr) := pfn]
    ensures nfu.pages == old(nfu.pages)[pfn := old(nfu.pages)[pfn].(lastAccessTime := nfu.currentTime)]
    ensures nfu.accessed == old(nfu.accessed) + {vpn}
    ensures nfu.currentTime == old(nfu.currentTime) && nfu.timeSinceTick == old(nfu.timeSinceTick)
    ensures (Memory(nfu.pages, nfu.accessed, nfu.currentTime, nfu.timeSinceTick, nextFreePfn), Event(Hit, pfn))
         == Chosen(old(Memory(nfu.pages, nfu.accessed, nfu.currentTime, nfu.timeSinceTick, nextFreePfn)), nfu.maxFrames, vpn)
  {
    ghost var pages0 := nfu.pages;
    TranslatesToIndex(pt.levelBits, pt.slots, nfu.pages, nfu.vpnToIndex, vaddr);
    FoundAtIndex(nfu.pages, nfu.vpnToIndex, vpn);
    assert pt.slots[PathOf(pt.levelBits, vaddr) := pfn] == pt.slots;
    nfu.OnHit(vpn);
    AgreesKept(pt.levelBits, pt.slots, pages0, nfu.pages);
  }

  /** A miss while `isFullNFU()` is false: `vaddr`'s page gets frame
      `nextFreePfn` in the page table and is loaded into the NFU state. */
  method FillFrame(pt: PageTable, nfu: NfuState, vaddr: Word, vpn: nat, nextFreePfn: int)
    returns (mapping: Option<SlotRef>)
    requires Consistent(pt, nfu, nextFreePfn) && vpn == VpnOf(pt.levelBits, vaddr)
    requires pt.Translate(vaddr).None? && !FullAt(nextFreePfn, nfu.maxFrames)
    modifies pt`nodesAt, pt`levelPath, pt`childrenPath, pt`mappingsPath, pt`slots, pt`Repr, pt.Repr, nfu
    ensures Consistent(pt, nfu, nextFreePfn + 1) && fresh(pt.Repr - old(pt.Repr))
    ensures pt.slots == old(pt.slots)[PathOf(pt.levelBits, vaddr) := nextFreePfn]
    ensures nfu.pages == old(nfu.pages) + [LoadedPage(nextFreePfn, vpn, MSB, nfu.currentTime)]
    ensures nfu.accessed == old(nfu.accessed) + {vpn}
    ensures nfu.currentTime == old(nfu.currentTime) && nfu.timeSinceTick == old(nfu.timeSinceTick)
    ensures mapping.Some? && mapping.value.index < mapping.value.table.Length
    ensures mapping.value.table[mapping.value.index] == Mapping(nextFreePfn, true)
    ensures (Memory(nfu.pages, nfu.accessed, nfu.currentTime, nfu.timeSinceTick, nextFreePfn + 1), Event(Filled, nextFreePfn))
         == Chosen(old(Memory(nfu.pages, nfu.accessed, nfu.currentTime, nfu.timeSinceTick, nextFreePfn)), nfu.maxFrames, vpn)
  {
    ghost var slots0 := pt.slots;
    mapping := MapPage(pt, vaddr, nextFreePfn);
    LoadPage(pt, nfu, vaddr, vpn, nextFreePfn, slots0);
  }

  /** The NFU half of a fill, after the page table has mapped `vaddr`'s
      page to `nextFreePfn`: `onMissNFU` appends the page. */
  method LoadPage(pt: PageTable, nfu: NfuState, vaddr: Word, vpn: nat, nextFreePfn: int, ghost slots0: map<seq<nat>, int>)
    requires pt.Valid() && nfu.Valid() && nfu !in pt.Repr && pt.rootLevel != null && WidthsOk(pt.levelBits)
    requires 1 <= nfu.maxFrames && nextFreePfn == |nfu.pages| && !FullAt(nextFreePfn, nfu.maxFrames)
    requires Agrees(pt.levelBits, slots0, nfu.pages) && TranslateIn(pt.levelBits, slots0, vaddr).None?
    requires pt.slots == slots0[PathOf(pt.levelBits, vaddr) := nextFreePfn] && vpn == VpnOf(pt.levelBits, vaddr)
    modifies nfu
    ensures Consistent(pt, nfu, nextFreePfn + 1)
    ensures nfu.pages == old(nfu.pages) + [LoadedPage(nextFreePfn, vpn, MSB, nfu.currentTime)]
    ensures nfu.accessed == old(nfu.accessed) + {vpn}
    ensures nfu.currentTime == old(nfu.currentTime) && nfu.timeSinceTick == old(nfu.timeSinceTick)
    ensures (Memory(nfu.pages, nfu.accessed, nfu.currentTime, nfu.timeSinceTick, nextFreePfn + 1), Event(Filled, nextFreePfn))
         == Chosen(old(Memory(nfu.pages, nfu.accessed, nfu.currentTime, nfu.timeSinceTick, nextFreePfn)), nfu.maxFrames, vpn)
  {
    ghost var pages0 := nfu.pages;
    TranslatesToIndex(pt.levelBits, slots0, nfu.pages, nfu.vpnToIndex, vaddr);
    FoundAtIndex(nfu.pages, nfu.vpnToIndex, vpn);
    nfu.OnMiss(vpn, nextFreePfn);
    AgreesAfterFill(pt.levelBits, slots0, pages0, vaddr, nfu.currentTime);
  }

  /** A miss while every frame is in use: the NFU victim's slot takes the
      new page, the victim's entry is invalidated through the address
      `victimVpn << offsetBits`, and `vaddr`'s page gets the victim's frame. */
  method ReplaceFrame(pt: PageTable, nfu: NfuState, vaddr: Word, vpn: nat, nextFreePfn: int)
    returns (victimPfn: int, victimVpn: nat, victimBitstring: nat, mapping: Option<SlotRef>)
    requires Consistent(pt, nfu, nextFreePfn) && vpn == VpnOf(pt.levelBits, vaddr)
    requires pt.Translate(vaddr).None? && FullAt(nextFreePfn, nfu.maxFrames)
    modifies pt`nodesAt, pt`levelPath, pt`childrenPath, pt`mappingsPath, pt`slots, pt`Repr, pt.Repr, nfu
    ensures Consistent(pt, nfu, nextFreePfn) && fresh(pt.Repr - old(pt.Repr))
    ensures IsVictim(old(nfu.pages), victimPfn)
    ensures pt.slots == (old(pt.slots) - {VpnPath(pt.levelBits, victimVpn)})[PathOf(pt.levelBits, vaddr) := victimPfn]
    ensures mapping.Some? && mapping.value.index < mapping.value.table.Length
    ensures mapping.value.table[mapping.value.index] == Mapping(victimPfn, true)
    ensures (Memory(nfu.pages, nfu.accessed, nfu.currentTime, nfu.timeSinceTick, nextFreePfn), Event(Replaced(victimVpn, victimBitstring), victimPfn))
         == Chosen(old(Memory(nfu.pages, nfu.accessed, nfu.currentTime, nfu.timeSinceTick, nextFreePfn)), nfu.maxFrames, vpn)
  {
    ghost var levelBits, slots0, pages0 := pt.levelBits, pt.slots, nfu.pages;
    TranslatesToIndex(levelBits, slots0, pages0, nfu.vpnToIndex, vaddr);
    FoundAtIndex(nfu.pages, nfu.vpnToIndex, vpn);
    var victimIndex;
    victimIndex, victimPfn, victimVpn, victimBitstring := ReuseVictim(nfu, vpn, nextFreePfn);
    mapping := RemapPage(pt, victimVpn, vaddr, victimPfn);
    AgreesAfterReplace(levelBits, slots0, pages0, victimIndex, vaddr, nfu.currentTime);
  }

  /** The page-table half of an eviction: the victim's entry is
      invalidated, then `vaddr`'s page is mapped to `frame` and looked up. */
  method RemapPage(pt: PageTable, victimVpn: nat, vaddr: Word, frame: int) returns (mapping: Option<SlotRef>)
    requires pt.Valid() && pt.rootLevel != null && WidthsOk(pt.levelBits) && VpnInRange(pt.levelBits, victimVpn)
    modifies pt`nodesAt, pt`levelPath, pt`childrenPath, pt`mappingsPath, pt`slots, pt`Repr, pt.Repr
    ensures pt.Valid() && fresh(pt.Repr - old(pt.Repr))
    ensures pt.slots == (old(pt.slots) - {VpnPath(pt.levelBits, victimVpn)})[PathOf(pt.levelBits, vaddr) := frame]
    ensures mapping.Some? && mapping.value.index < mapping.value.table.Length
    ensures mapping.value.table[mapping.value.index] == Mapping(frame, true)
  {
    InvalidatePage(pt, victimVpn);
    mapping := MapPage(pt, vaddr, frame);
  }

  /** The eviction's NFU half: `selectVictimNFU`, the victim's frame read
      before the slot is reused, and `reuseSlotNFU`. */
  method ReuseVictim(nfu: NfuState, vpn: nat, ghost nextFreePfn: int)
    returns (victimIndex: int, victimPfn: int, victimVpn: nat, victimBitstring: nat)
    requires nfu.Valid() && |nfu.pages| > 0 && vpn !in nfu.vpnToIndex
    requires 1 <= nfu.maxFrames && FullAt(|nfu.pages|, nfu.maxFrames) && FindPage(nfu.pages, vpn).None?
    modifies nfu
    ensures nfu.Valid() && victimIndex == VictimOf(old(nfu.pages)) && IsVictim(old(nfu.pages), victimIndex)
    ensures victimPfn == old(nfu.pages)[victimIndex].pfn
    ensures victimVpn == old(nfu.pages)[victimIndex].vpn && victimBitstring == old(nfu.pages)[victimIndex].bitstring
    ensures victimVpn != vpn && victimBitstring < BITSTRING_LIMIT
    ensures nfu.pages == old(nfu.pages)[victimIndex := LoadedPage(victimPfn, vpn, MSB, nfu.currentTime)]
    ensures nfu.accessed == old(nfu.accessed) - {victimVpn} + {vpn}
    ensures nfu.currentTime == old(nfu.currentTime) && nfu.timeSinceTick == old(nfu.timeSinceTick)
    ensures (Memory(nfu.pages, nfu.accessed, nfu.currentTime, nfu.timeSinceTick, nextFreePfn),
             Event(Replaced(victimVpn, victimBitstring), victimPfn))
         == Chosen(old(Memory(nfu.pages, nfu.accessed, nfu.currentTime, nfu.timeSinceTick, nextFreePfn)), nfu.maxFrames, vpn)
  {
    victimIndex := nfu.SelectVictim();
    assert nfu.pages[victimIndex].vpn in nfu.vpnToIndex;
    victimPfn := nfu.pages[victimIndex].pfn;
    victimVpn, victimBitstring := nfu.ReuseSlot(victimIndex, vpn);
  }

  /** `insertMapForVpn2Pfn(vaddr, frame)` followed by
      `searchMappedPfn(vaddr)`, as both miss branches do: the lookup finds
      the entry just stored. */
  method MapPage(pt: PageTable, vaddr: Word, frame: int) returns (mapping: Option<SlotRef>)
    requires pt.Valid() && pt.rootLevel != null && WidthsOk(pt.levelBits)
    modifies pt`nodesAt, pt`levelPath, pt`childrenPath, pt`mappingsPath, pt`slots, pt`Repr, pt.Repr
    ensures pt.Valid() && fresh(pt.Repr - old(pt.Repr))
    ensures pt.slots == old(pt.slots)[PathOf(pt.levelBits, vaddr) := frame]
    ensures mapping.Some? && mapping.value.index < mapping.value.table.Length
    ensures mapping.value.table[mapping.value.index] == Mapping(frame, true)
  {
    pt.InsertMapForVpn2Pfn(vaddr, frame);
    mapping := pt.SearchMappedPfn(vaddr);
  }

  /** The eviction's page-table half: the victim's entry, looked up through
      the address `victimVpn << offsetBits`, is marked invalid if valid. */
  method InvalidatePage(pt: PageTable, victimVpn: nat)
    requires pt.Valid() && pt.rootLevel != null && WidthsOk(pt.levelBits) && VpnInRange(pt.levelBits, victimVpn)
    modifies pt`slots, pt.Repr
    ensures pt.Valid() && pt.Repr == old(pt.Repr)
    ensures pt.slots == old(pt.slots) - {VpnPath(pt.levelBits, victimVpn)}
  {
    var oldVaddr := Shl32(victimVpn, pt.offsetBits);
    PageAddress(pt.levelBits, victimVpn);
    var oldMapping := pt.SearchMappedPfn(oldVaddr);
    if oldMapping.Some? {
      pt.NodeShape(Parent(PathOf(pt.levelBits, oldVaddr)));
      pt.InvalidateSlot(oldMapping.value, PathOf(pt.levelBits, oldVaddr));
    }
  }
}
