/**
 * The trace loops of the simulator with NFU replacement. Each run reads
 * addresses until the trace ends or, when `numAccesses > 0`, until that
 * many have been processed, runs one access per address, and returns what
 * its log mode reports instead of printing it.
 */
module Runs {
  import opened Bits
  import opened Layout
  import opened Levels
  import opened PageTables
  import opened Nfu
  import opened Counting
  import opened Policy
  import opened Simulator

  /** One line of the `vpns_pfn` log: the index at every level and the
      frame, or -1 without a valid mapping. */
  datatype PiecesRecord = PiecesRecord(pieces: seq<nat>, pfn: int)

  /** One line of the `vpn2pfn_pr` log; `vpnReplaced` is -1 and
      `victimBitstring` 0 unless the access evicted a page. */
  datatype MappingRecord = MappingRecord(vpn: nat, pfn: int, vpnReplaced: int, victimBitstring: nat, pageTableHit: bool)

  /** The `summary` log. */
  datatype Summary = Summary(pageSize: nat, pageReplacements: nat, hits: nat, addressesProcessed: nat,
                             framesAllocated: nat, numEntries: nat)

  /** How many addresses of a trace of `traceLength` a run processes. */
  function Processed(numAccesses: int, traceLength: nat): (n: nat)
    ensures n <= traceLength
    ensures numAccesses <= 0 ==> n == traceLength
    ensures numAccesses > 0 ==> n <= numAccesses && (n < numAccesses ==> n == traceLength)
  {
    if numAccesses <= 0 || traceLength <= numAccesses then traceLength else numAccesses
  }

  /** The page numbers of the addresses of `trace`. */
  function PageNumbers(levelBits: seq<nat>, trace: seq<Word>): (vpns: seq<nat>)
    requires WidthsOk(levelBits)
    ensures |vpns| == |trace|
  {
    seq(|trace|, k requires 0 <= k < |trace| => VpnOf(levelBits, trace[k]))
  }

  /** The NFU state, the next free frame and the events after the first
      `n` addresses of `trace`, from the state `initNFUState` leaves. */
  ghost function RunOf(levelBits: seq<nat>, maxFrames: Int32, interval: int, trace: seq<Word>, n: nat): (Memory, seq<Event>)
    requires WidthsOk(levelBits) && maxFrames >= 1 && n <= |trace|
  {
    Run(maxFrames, interval, PageNumbers(levelBits, trace[..n]))
  }

  /** The NFU state as a value, with the next free frame. */
  ghost function MemoryOf(nfu: NfuState, nextFreePfn: int): Memory
    reads nfu
  {
    Memory(nfu.pages, nfu.accessed, nfu.currentTime, nfu.timeSinceTick, nextFreePfn)
  }

  /** The state of a run after the first `n` addresses of `trace`: the
      page table and the NFU state agree, and the NFU state, the next free
      frame and the events so far are those of the policy's run. */
  ghost predicate Running(pt: PageTable, nfu: NfuState, trace: seq<Word>, n: nat, nextFreePfn: int, events: seq<Event>)
    reads pt, pt.Repr, nfu
  {
    && Consistent(pt, nfu, nextFreePfn) && n <= |trace|
    && (MemoryOf(nfu, nextFreePfn), events) == RunOf(pt.levelBits, nfu.maxFrames, nfu.interval, trace, n)
  }

  /** The loop body shared by every run: access `trace[n]` after the first
      `n` addresses; the NFU state, the next free frame and the events are
      then those of `Run` over `n + 1` addresses. */
  method Advance(pt: PageTable, nfu: NfuState, trace: seq<Word>, n: nat, nextFreePfn: int, ghost events: seq<Event>)
    returns (outcome: Outcome, pfn: int, nextFree: int)
    requires Running(pt, nfu, trace, n, nextFreePfn, events) && n < |trace|
    modifies pt`nodesAt, pt`levelPath, pt`childrenPath, pt`mappingsPath, pt`slots, pt`Repr, pt.Repr, nfu
    ensures Running(pt, nfu, trace, n + 1, nextFree, events + [Event(outcome, pfn)])
    ensures fresh(pt.Repr - old(pt.Repr)) && 0 <= pfn < |nfu.pages|
  {
    ghost var levelBits := pt.levelBits;
    ghost var vpns := PageNumbers(levelBits, trace[..n]);
    assert PageNumbers(levelBits, trace[..n + 1]) == vpns + [VpnOf(levelBits, trace[n])];
    RunSnoc(nfu.maxFrames, nfu.interval, vpns, VpnOf(levelBits, trace[n]));
    outcome, pfn, nextFree := Access(pt, nfu, trace[n], nextFreePfn);
    assert pt.slots[PathOf(levelBits, trace[n])] == pfn;
  }

  /** `run_va2pa`: the physical address of every access, the frame shifted
      above the offset and the offset kept, in the frame the policy's run
      puts the page in. */
  method RunVa2pa(pt: PageTable, nfu: NfuState, trace: seq<Word>, numAccesses: int)
    returns (paddrs: seq<Word>)
    requires Consistent(pt, nfu, 0) && MemoryOf(nfu, 0) == INITIAL
    modifies pt`nodesAt, pt`levelPath, pt`childrenPath, pt`mappingsPath, pt`slots, pt`Repr, pt.Repr, nfu
    ensures |paddrs| == Processed(numAccesses, |trace|)
    ensures Translated(pt.levelBits, trace, FramesOf(RunOf(pt.levelBits, nfu.maxFrames, nfu.interval, trace, |paddrs|).1), paddrs)
  {
    ghost var levelBits, maxFrames, interval := pt.levelBits, nfu.maxFrames, nfu.interval;
    ghost var events: seq<Event> := [];
    var count := 0;
    var nextFreePfn := 0;
    paddrs := [];
    assert trace[..0] == [];
    while (numAccesses <= 0 || count < numAccesses) && count < |trace|
      invariant count <= |trace| && (numAccesses > 0 ==> count <= numAccesses)
      invariant |paddrs| == |events| == count
      invariant Running(pt, nfu, trace, count, nextFreePfn, events) && fresh(pt.Repr - old(pt.Repr))
      invariant pt.levelBits == levelBits && nfu.maxFrames == maxFrames && nfu.interval == interval
      invariant Translated(levelBits, trace, FramesOf(events), paddrs)
    {
      var paddr, outcome, pfn;
      paddr, outcome, pfn, nextFreePfn := TranslateAccess(pt, nfu, trace, count, nextFreePfn, events);
      TranslatedStep(levelBits, trace, events, paddrs, Event(outcome, pfn), paddr);
      paddrs, events := paddrs + [paddr], events + [Event(outcome, pfn)];
      count := count + 1;
    }
  }

  /** The loop body of `run_va2pa`: the access, then the physical address
      of the address in the frame it got. */
  method TranslateAccess(pt: PageTable, nfu: NfuState, trace: seq<Word>, n: nat, nextFreePfn: int, ghost events: seq<Event>)
    returns (paddr: Word, outcome: Outcome, pfn: int, nextFree: int)
    requires Running(pt, nfu, trace, n, nextFreePfn, events) && n < |trace|
    modifies pt`nodesAt, pt`levelPath, pt`childrenPath, pt`mappingsPath, pt`slots, pt`Repr, pt.Repr, nfu
    ensures Running(pt, nfu, trace, n + 1, nextFree, events + [Event(outcome, pfn)]) && fresh(pt.Repr - old(pt.Repr))
    ensures pfn >= 0 && paddr == PhysicalAddress(pt.levelBits, pfn, trace[n])
  {
    outcome, pfn, nextFree := Advance(pt, nfu, trace, n, nextFreePfn, events);
    paddr := PhysicalAddressOf(pt, pfn, trace[n]);
  }

  /** `paddrs[k]` is the physical address of `trace[k]` in frame `frames[k]`. */
  ghost predicate Translated(levelBits: seq<nat>, trace: seq<Word>, frames: seq<int>, paddrs: seq<Word>)
    requires WidthsOk(levelBits)
  {
    && |paddrs| == |frames| <= |trace|
    && forall k | 0 <= k < |paddrs| :: frames[k] >= 0 && paddrs[k] == PhysicalAddress(levelBits, frames[k], trace[k])
  }

  /** The next address, translated in the frame of its event, extends
      `Translated` over the frames of the events. */
  lemma TranslatedStep(levelBits: seq<nat>, trace: seq<Word>, events: seq<Event>, paddrs: seq<Word>, e: Event, paddr: Word)
    requires WidthsOk(levelBits) && Translated(levelBits, trace, FramesOf(events), paddrs) && |paddrs| < |trace|
    requires e.pfn >= 0 && paddr == PhysicalAddress(levelBits, e.pfn, trace[|paddrs|])
    ensures Translated(levelBits, trace, FramesOf(events + [e]), paddrs + [paddr])
  {
    assert FramesOf(events + [e]) == FramesOf(events) + [e.pfn];
  }

  /** `(uint32_t(pfn) << offsetBits) | getOffset(vaddr)`: the frame number
      above the offset bits, the offset of `vaddr` below them. */
  function PhysicalAddressOf(pt: PageTable, pfn: nat, vaddr: Word): (paddr: Word)
    reads pt
    requires pt.Geometry() && pt.numLevels > 0
    ensures paddr == PhysicalAddress(pt.levelBits, pfn, vaddr)
  {
    MaskedOffset(pt.levelBits, vaddr);
    PhysicalAddressFits(pt.levelBits, pfn, vaddr);
    Or(Shl32(pfn, pt.offsetBits), pt.GetOffset(vaddr))
  }

  /** The indices of every level, by `getVPNPiece`. */
  method VpnPieces(pt: PageTable, vaddr: Word) returns (pieces: seq<nat>)
    requires pt.Geometry() && pt.numLevels > 0
    ensures pieces == PathOf(pt.levelBits, vaddr)
  {
    pieces := [];
    for i := 0 to pt.numLevels
      invariant pieces == PathOf(pt.levelBits, vaddr)[..i]
    {
      pieces := pieces + [pt.GetVPNPiece(vaddr, i)];
    }
  }

  /** `run_offset`: the page offset of every processed access, which is
      the address modulo the page size. */
  method RunOffset(pt: PageTable, trace: seq<Word>, numAccesses: int) returns (offsets: seq<nat>)
    requires pt.Geometry() && pt.numLevels > 0
    ensures |offsets| == Processed(numAccesses, |trace|)
    ensures forall k | 0 <= k < |offsets| :: offsets[k] == trace[k] % PageSizeOf(pt.levelBits)
  {
    var count := 0;
    offsets := [];
    while (numAccesses <= 0 || count < numAccesses) && count < |trace|
      invariant count <= |trace| && (numAccesses > 0 ==> count <= numAccesses)
      invariant |offsets| == count
      invariant forall k | 0 <= k < count :: offsets[k] == trace[k] % PageSizeOf(pt.levelBits)
    {
      offsets := offsets + [pt.GetOffset(trace[count])];
      count := count + 1;
    }
  }

  /** `run_vpns_pfn`: the indices of every access and the frame the
      policy's run puts its page in, which is always a valid one. */
  method RunVpnsPfn(pt: PageTable, nfu: NfuState, trace: seq<Word>, numAccesses: int)
    returns (records: seq<PiecesRecord>)
    requires Consistent(pt, nfu, 0) && MemoryOf(nfu, 0) == INITIAL
    modifies pt`nodesAt, pt`levelPath, pt`childrenPath, pt`mappingsPath, pt`slots, pt`Repr, pt.Repr, nfu
    ensures |records| == Processed(numAccesses, |trace|)
    ensures PiecesListed(pt.levelBits, trace, FramesOf(RunOf(pt.levelBits, nfu.maxFrames, nfu.interval, trace, |records|).1), records)
  {
    ghost var levelBits, maxFrames, interval := pt.levelBits, nfu.maxFrames, nfu.interval;
    ghost var events: seq<Event> := [];
    var count := 0;
    var nextFreePfn := 0;
    records := [];
    assert trace[..0] == [];
    while (numAccesses <= 0 || count < numAccesses) && count < |trace|
      invariant count <= |trace| && (numAccesses > 0 ==> count <= numAccesses)
      invariant |records| == |events| == count
      invariant Running(pt, nfu, trace, count, nextFreePfn, events) && fresh(pt.Repr - old(pt.Repr))
      invariant pt.levelBits == levelBits && nfu.maxFrames == maxFrames && nfu.interval == interval
      invariant PiecesListed(levelBits, trace, FramesOf(events), records)
    {
      var pieces, outcome, pfn;
      pieces, outcome, pfn, nextFreePfn := ListAccess(pt, nfu, trace, count, nextFreePfn, events);
      PiecesListedStep(levelBits, trace, events, records, pieces, Event(outcome, pfn));
      records, events := records + [PiecesRecord(pieces, pfn)], events + [Event(outcome, pfn)];
      count := count + 1;
    }
  }

  /** The loop body of `run_vpns_pfn`: the indices of the address, then
      the access. */
  method ListAccess(pt: PageTable, nfu: NfuState, trace: seq<Word>, n: nat, nextFreePfn: int, ghost events: seq<Event>)
    returns (pieces: seq<nat>, outcome: Outcome, pfn: int, nextFree: int)
    requires Running(pt, nfu, trace, n, nextFreePfn, events) && n < |trace|
    modifies pt`nodesAt, pt`levelPath, pt`childrenPath, pt`mappingsPath, pt`slots, pt`Repr, pt.Repr, nfu
    ensures Running(pt, nfu, trace, n + 1, nextFree, events + [Event(outcome, pfn)]) && fresh(pt.Repr - old(pt.Repr))
    ensures pieces == PathOf(pt.levelBits, trace[n])
  {
    pieces := VpnPieces(pt, trace[n]);
    outcome, pfn, nextFree := Advance(pt, nfu, trace, n, nextFreePfn, events);
  }

  /** `records[k]` lists the indices of `trace[k]` and its frame `frames[k]`. */
  ghost predicate PiecesListed(levelBits: seq<nat>, trace: seq<Word>, frames: seq<int>, records: seq<PiecesRecord>)
    requires WidthsOk(levelBits)
  {
    && |records| == |frames| <= |trace|
    && forall k | 0 <= k < |records| :: records[k] == PiecesRecord(PathOf(levelBits, trace[k]), frames[k])
  }

  /** The next address, listed with the frame of its event, extends
      `PiecesListed` over the frames of the events. */
  lemma PiecesListedStep(levelBits: seq<nat>, trace: seq<Word>, events: seq<Event>, records: seq<PiecesRecord>,
                         pieces: seq<nat>, e: Event)
    requires WidthsOk(levelBits) && PiecesListed(levelBits, trace, FramesOf(events), records) && |records| < |trace|
    requires pieces == PathOf(levelBits, trace[|records|])
    ensures PiecesListed(levelBits, trace, FramesOf(events + [e]), records + [PiecesRecord(pieces, e.pfn)])
  {
    assert FramesOf(events + [e]) == FramesOf(events) + [e.pfn];
  }

  /** `run_summary`: the hits, the frames handed out and the replacements
      are those of the policy's run, so they add up to the addresses
      processed, and no page is replaced before every frame is in use; the
      entry count is the tree's allocated slots. */
  method RunSummary(pt: PageTable, nfu: NfuState, trace: seq<Word>, numAccesses: int)
    returns (summary: Summary)
    requires Consistent(pt, nfu, 0) && MemoryOf(nfu, 0) == INITIAL
    modifies pt`nodesAt, pt`levelPath, pt`childrenPath, pt`mappingsPath, pt`slots, pt`Repr, pt.Repr, nfu
    ensures summary.addressesProcessed == Processed(numAccesses, |trace|)
    ensures var events := RunOf(pt.levelBits, nfu.maxFrames, nfu.interval, trace, summary.addressesProcessed).1;
      && summary.hits == HitCount(events)
      && summary.framesAllocated == FillCount(events)
      && summary.pageReplacements == ReplacementCount(events)
    ensures summary.hits + summary.framesAllocated + summary.pageReplacements == summary.addressesProcessed
    ensures summary.pageSize == PageSizeOf(pt.levelBits)
    ensures summary.framesAllocated == |nfu.pages| <= nfu.maxFrames
    ensures summary.pageReplacements > 0 ==> summary.framesAllocated == nfu.maxFrames
    ensures pt.Valid() && summary.numEntries == |SlotsUnder(pt, [])|
  {
    ghost var levelBits, maxFrames, interval := pt.levelBits, nfu.maxFrames, nfu.interval;
    var pageSize := pt.PageSizeBytes();
    var hits, framesAllocated, pageReplacements, count, nextFreePfn, events := CountOutcomes(pt, nfu, trace, numAccesses);
    RunTally(maxFrames, interval, PageNumbers(levelBits, trace[..count]));
    var numEntries := CountEntries(pt);
    summary := Summary(pageSize, pageReplacements, hits, count, framesAllocated, numEntries);
  }

  /** The loop of `run_summary`: it counts the hits, the frames handed out
      and the replacements of the policy's run. */
  method CountOutcomes(pt: PageTable, nfu: NfuState, trace: seq<Word>, numAccesses: int)
    returns (hits: nat, framesAllocated: nat, pageReplacements: nat, count: nat, nextFreePfn: int, ghost events: seq<Event>)
    requires Consistent(pt, nfu, 0) && MemoryOf(nfu, 0) == INITIAL
    modifies pt`nodesAt, pt`levelPath, pt`childrenPath, pt`mappingsPath, pt`slots, pt`Repr, pt.Repr, nfu
    ensures count == Processed(numAccesses, |trace|)
    ensures Running(pt, nfu, trace, count, nextFreePfn, events) && fresh(pt.Repr - old(pt.Repr))
    ensures hits == HitCount(events) && framesAllocated == FillCount(events)
    ensures pageReplacements == ReplacementCount(events)
  {
    ghost var levelBits, maxFrames, interval := pt.levelBits, nfu.maxFrames, nfu.interval;
    events := [];
    count, nextFreePfn := 0, 0;
    hits, pageReplacements, framesAllocated := 0, 0, 0;
    assert trace[..0] == [];
    while (numAccesses <= 0 || count < numAccesses) && count < |trace|
      invariant count <= |trace| && (numAccesses > 0 ==> count <= numAccesses)
      invariant |events| == count
      invariant Running(pt, nfu, trace, count, nextFreePfn, events) && fresh(pt.Repr - old(pt.Repr))
      invariant hits == HitCount(events) && framesAllocated == FillCount(events)
      invariant pageReplacements == ReplacementCount(events)
    {
      var outcome, pfn;
      outcome, pfn, nextFreePfn := Advance(pt, nfu, trace, count, nextFreePfn, events);
      match outcome {
        case Hit => hits := hits + 1;
        case Filled => framesAllocated := framesAllocated + 1;
        case Replaced(_, _) => pageReplacements := pageReplacements + 1;
      }
      assert (events + [Event(outcome, pfn)])[..count] == events;
      events := events + [Event(outcome, pfn)];
      count := count + 1;
    }
  }

  /** The `vpn2pfn_pr` line of an access to page `vpn` with event `e`: the
      evicted page and its bitstring on a replacement, -1 and 0 otherwise,
      and whether the page table already held the page. */
  function MappingRecordOf(vpn: nat, e: Event): (r: MappingRecord)
    ensures r.vpn == vpn && r.pfn == e.pfn
    ensures r.pageTableHit <==> e.outcome.Hit?
    ensures r.vpnReplaced != -1 <==> e.outcome.Replaced?
  {
    match e.outcome
    case Replaced(victimVpn, victimBitstring) => MappingRecord(vpn, e.pfn, victimVpn, victimBitstring, false)
    case _ => MappingRecord(vpn, e.pfn, -1, 0, e.outcome.Hit?)
  }

  /** What a `vpn2pfn_pr` line says about one access from a well-formed
      state: the frame is in range; the page table hit exactly when the
      page was loaded; a page is named as replaced exactly when the access
      missed with every frame in use, and it is then the NFU victim of the
      pages as this access's tick left them, another page than the one
      accessed, reported with its aged bitstring, and no longer loaded. */
  lemma MappingRecordMeaning(m: Memory, maxFrames: Int32, interval: int, vpn: nat)
    requires maxFrames >= 1 && WellFormed(m, maxFrames)
    ensures var (m', e) := Step(m, maxFrames, interval, vpn);
      var r := MappingRecordOf(vpn, e);
      && 0 <= r.pfn < maxFrames
      && (r.pageTableHit <==> Resident(m, vpn))
      && (r.vpnReplaced != -1 <==> !Resident(m, vpn) && m.nextFreePfn == maxFrames)
      && (r.vpnReplaced != -1 ==>
            && IsVictim(Clocked(m, interval).pages, r.pfn)
            && r.vpnReplaced == m.pages[r.pfn].vpn != vpn
            && r.victimBitstring == Clocked(m, interval).pages[r.pfn].bitstring < BITSTRING_LIMIT
            && !Resident(m', r.vpnReplaced))
      && (r.vpnReplaced == -1 ==> r.victimBitstring == 0)
  {
    StepFacts(m, maxFrames, interval, vpn);
    ClockedKeepsFrames(m, maxFrames, interval);
  }

  /** The `vpn2pfn_pr` lines of the first `|events|` addresses of `trace`. */
  function LogOf(levelBits: seq<nat>, trace: seq<Word>, events: seq<Event>): (log: seq<MappingRecord>)
    requires WidthsOk(levelBits) && |events| <= |trace|
    ensures |log| == |events|
  {
    seq(|events|, k requires 0 <= k < |events| => MappingRecordOf(VpnOf(levelBits, trace[k]), events[k]))
  }

  /** One more access adds its line to the log. */
  lemma LogStep(levelBits: seq<nat>, trace: seq<Word>, events: seq<Event>, e: Event)
    requires WidthsOk(levelBits) && |events| < |trace|
    ensures LogOf(levelBits, trace, events + [e])
         == LogOf(levelBits, trace, events) + [MappingRecordOf(VpnOf(levelBits, trace[|events|]), e)]
  {
    assert forall k | 0 <= k < |events| :: (events + [e])[k] == events[k];
  }

  /** Line `k` of the log of a run is the line of one `Step` from the
      well-formed state the first `k` accesses leave, so
      `MappingRecordMeaning` applies to every line. */
  lemma LogLineMeaning(levelBits: seq<nat>, maxFrames: Int32, interval: int, trace: seq<Word>, n: nat, k: nat)
    requires WidthsOk(levelBits) && maxFrames >= 1 && k < n <= |trace|
    ensures var m := RunOf(levelBits, maxFrames, interval, trace, k).0;
      var vpn := VpnOf(levelBits, trace[k]);
      && WellFormed(m, maxFrames)
      && LogOf(levelBits, trace, RunOf(levelBits, maxFrames, interval, trace, n).1)[k]
         == MappingRecordOf(vpn, Step(m, maxFrames, interval, vpn).1)
  {
    var vpns := PageNumbers(levelBits, trace[..n]);
    EventAt(maxFrames, interval, vpns, k);
    assert vpns[..k] == PageNumbers(levelBits, trace[..k]);
    RunWellFormed(maxFrames, interval, vpns[..k]);
  }

  /** `run_vpn2pfn_pr`: for every access its page and the line the policy's
      run gives it: its frame, whether it hit, and the page it evicted with
      that page's bitstring, read before the slot was reused. */
  method RunVpn2pfnPr(pt: PageTable, nfu: NfuState, trace: seq<Word>, numAccesses: int)
    returns (records: seq<MappingRecord>)
    requires Consistent(pt, nfu, 0) && MemoryOf(nfu, 0) == INITIAL
    modifies pt`nodesAt, pt`levelPath, pt`childrenPath, pt`mappingsPath, pt`slots, pt`Repr, pt.Repr, nfu
    ensures |records| == Processed(numAccesses, |trace|)
    ensures records == LogOf(pt.levelBits, trace, RunOf(pt.levelBits, nfu.maxFrames, nfu.interval, trace, |records|).1)
  {
    var nextFreePfn;
    ghost var events;
    records, nextFreePfn, events := LogLines(pt, nfu, trace, numAccesses);
  }

  /** The loop of `run_vpn2pfn_pr`: one line per processed access, the
      line of the policy run's event for it. */
  method LogLines(pt: PageTable, nfu: NfuState, trace: seq<Word>, numAccesses: int)
    returns (records: seq<MappingRecord>, nextFreePfn: int, ghost events: seq<Event>)
    requires Consistent(pt, nfu, 0) && MemoryOf(nfu, 0) == INITIAL
    modifies pt`nodesAt, pt`levelPath, pt`childrenPath, pt`mappingsPath, pt`slots, pt`Repr, pt.Repr, nfu
    ensures |records| == Processed(numAccesses, |trace|)
    ensures Running(pt, nfu, trace, |records|, nextFreePfn, events) && fresh(pt.Repr - old(pt.Repr))
    ensures records == LogOf(pt.levelBits, trace, events)
  {
    events := [];
    var count := 0;
    nextFreePfn := 0;
    records := [];
    assert trace[..0] == [];
    while (numAccesses <= 0 || count < numAccesses) && count < |trace|
      invariant count <= |trace| && (numAccesses > 0 ==> count <= numAccesses)
      invariant |records| == |events| == count
      invariant Running(pt, nfu, trace, count, nextFreePfn, events) && fresh(pt.Repr - old(pt.Repr))
      invariant records == LogOf(pt.levelBits, trace, events)
    {
      var record, outcome, pfn;
      record, outcome, pfn, nextFreePfn := LogAccess(pt, nfu, trace, count, nextFreePfn, events);
      records, events := records + [record], events + [Event(outcome, pfn)];
      count := count + 1;
    }
  }

  /** The loop body of `run_vpn2pfn_pr`: the page number, the access, and
      the evicted page and its bitstring when there is one. */
  method LogAccess(pt: PageTable, nfu: NfuState, trace: seq<Word>, n: nat, nextFreePfn: int, ghost events: seq<Event>)
    returns (record: MappingRecord, outcome: Outcome, pfn: int, nextFree: int)
    requires Running(pt, nfu, trace, n, nextFreePfn, events) && n < |trace|
    modifies pt`nodesAt, pt`levelPath, pt`childrenPath, pt`mappingsPath, pt`slots, pt`Repr, pt.Repr, nfu
    ensures Running(pt, nfu, trace, n + 1, nextFree, events + [Event(outcome, pfn)]) && fresh(pt.Repr - old(pt.Repr))
    ensures record == MappingRecordOf(VpnOf(pt.levelBits, trace[n]), Event(outcome, pfn))
    ensures LogOf(pt.levelBits, trace, events + [Event(outcome, pfn)]) == LogOf(pt.levelBits, trace, events) + [record]
  {
    var vaddr := trace[n];
    var vpnReplaced: int, victimBitstring: nat := -1, 0;
    var vpn := Shr(vaddr, pt.offsetBits);
    outcome, pfn, nextFree := Advance(pt, nfu, trace, n, nextFreePfn, events);
    if outcome.Replaced? {
      vpnReplaced, victimBitstring := outcome.victimVpn, outcome.victimBitstring;
    }
    record := MappingRecord(vpn, pfn, vpnReplaced, victimBitstring, outcome.Hit?);
    LogStep(pt.levelBits, trace, events, Event(outcome, pfn));
  }
}
