/**
 * The two versions of `main`, after the command line: the simulator with
 * NFU replacement, which builds the table and the NFU state and runs the
 * chosen log mode, and the earlier simulator without replacement, which
 * builds only the table.
 *
 * The trace file's addresses are the parameter `trace`; what a mode would
 * print is its `Report`.
 */
module Program {
  import opened Bits
  import opened Layout
  import opened Levels
  import opened Wrappers
  import opened PageTables
  import opened Nfu
  import opened Simulator
  import opened Runs
  import opened FirstUse
  import opened EarlyMain
  import opened Config
  import opened Policy

  /** What a log mode reports. */
  datatype Report =
    | Bitmasks(masks: seq<nat>)
    | Translations(paddrs: seq<Word>)
    | PieceLists(pieceRecords: seq<PiecesRecord>)
    | Offsets(offsets: seq<nat>)
    | SummaryReport(summary: Summary)
    | MappingLog(mappingRecords: seq<MappingRecord>)
    | Silent

  /** The level masks, root level first. */
  ghost predicate MasksOf(levelBits: seq<nat>, masks: seq<nat>)
    requires WidthsOk(levelBits)
  {
    |masks| == |levelBits| && forall i | 0 <= i < |masks| :: masks[i] == MaskOf(levelBits, i)
  }

  /** The offset of every processed address. */
  ghost predicate OffsetsOf(levelBits: seq<nat>, trace: seq<Word>, numAccesses: int, offsets: seq<nat>)
    requires WidthsOk(levelBits)
  {
    && |offsets| == Processed(numAccesses, |trace|)
    && forall k | 0 <= k < |offsets| :: offsets[k] == trace[k] % PageSizeOf(levelBits)
  }

  /** What each log mode of the simulator with replacement reports about
      `trace`; an unknown mode reports nothing. The frames, the hits and
      the evictions reported are those of the NFU policy's run over the
      processed addresses from the initial state. */
  ghost predicate Reports(settings: Settings, trace: seq<Word>, report: Report)
    requires WidthsOk(settings.levelBits) && settings.options.availFrames >= 1
  {
    var levelBits, o := settings.levelBits, settings.options;
    var n := Processed(o.numAccesses, |trace|);
    var events := RunOf(levelBits, o.availFrames, o.bitUpdateInterval, trace, n).1;
    if o.logMode == "bitmasks" then
      report.Bitmasks? && MasksOf(levelBits, report.masks)
    else if o.logMode == "va2pa" then
      && report.Translations? && |report.paddrs| == n
      && Translated(levelBits, trace, FramesOf(events), report.paddrs)
      && (forall k | 0 <= k < n :: 0 <= events[k].pfn < o.availFrames)
    else if o.logMode == "vpns_pfn" then
      && report.PieceLists? && |report.pieceRecords| == n
      && PiecesListed(levelBits, trace, FramesOf(events), report.pieceRecords)
      && (forall k | 0 <= k < n :: 0 <= events[k].pfn < o.availFrames)
    else if o.logMode == "offset" then
      report.Offsets? && OffsetsOf(levelBits, trace, o.numAccesses, report.offsets)
    else if o.logMode == "summary" then
      && report.SummaryReport?
      && var s := report.summary;
      && s.addressesProcessed == n
      && s.hits == HitCount(events) && s.framesAllocated == FillCount(events)
      && s.pageReplacements == ReplacementCount(events)
      && s.hits + s.framesAllocated + s.pageReplacements == n
      && s.pageSize == PageSizeOf(levelBits)
      && s.framesAllocated <= o.availFrames
      && (s.pageReplacements > 0 ==> s.framesAllocated == o.availFrames)
    else if o.logMode == "vpn2pfn_pr" then
      report.MappingLog? && report.mappingRecords == LogOf(levelBits, trace, events)
    else
      report == Silent
  }

  /** `main` of the simulator with replacement once the command line is
      accepted: `initFromLevelBits`, `initNFUState`, then the log mode. */
  method Simulate(settings: Settings, trace: seq<Word>) returns (report: Report)
    requires WidthsOk(settings.levelBits) && settings.options.availFrames >= 1
    ensures Reports(settings, trace, report)
  {
    var o := settings.options;
    var pt := new PageTable();
    pt.InitFromLevelBits(settings.levelBits);
    var nfu := new NfuState(o.availFrames, o.bitUpdateInterval);
    assert Consistent(pt, nfu, 0) && MemoryOf(nfu, 0) == INITIAL;
    ghost var levelBits := settings.levelBits;
    if o.logMode == "bitmasks" {
      report := Bitmasks(pt.bitmasks);
    } else if o.logMode == "va2pa" {
      var paddrs := RunVa2pa(pt, nfu, trace, o.numAccesses);
      RunFramesInRange(o.availFrames, o.bitUpdateInterval, PageNumbers(levelBits, trace[..|paddrs|]));
      report := Translations(paddrs);
    } else if o.logMode == "vpns_pfn" {
      var records := RunVpnsPfn(pt, nfu, trace, o.numAccesses);
      RunFramesInRange(o.availFrames, o.bitUpdateInterval, PageNumbers(levelBits, trace[..|records|]));
      report := PieceLists(records);
    } else if o.logMode == "offset" {
      var offsets := RunOffset(pt, trace, o.numAccesses);
      report := Offsets(offsets);
    } else if o.logMode == "summary" {
      var summary := RunSummary(pt, nfu, trace, o.numAccesses);
      report := SummaryReport(summary);
    } else if o.logMode == "vpn2pfn_pr" {
      var records := RunVpn2pfnPr(pt, nfu, trace, o.numAccesses);
      report := MappingLog(records);
    } else {
      report := Silent;
    }
  }

  /** The whole program with replacement: a rejected command line reports
      nothing, an accepted one runs its log mode; the exit status is 0 on
      every path. An accepted command line without level widths is not
      modelled. */
  method Launch(options: seq<Flag>, traceFile: Option<string>, opens: bool, levelArgs: seq<Int32>, trace: seq<Word>)
    returns (report: Report, status: int)
    requires Problem(options, traceFile, opens, levelArgs).None? ==> |levelArgs| >= 1
    ensures status == 0
    ensures Problem(options, traceFile, opens, levelArgs).Some? ==> report == Silent
    ensures Problem(options, traceFile, opens, levelArgs).None? ==>
      && WidthsOk(levelArgs) && Applied(options).availFrames >= 1
      && Reports(Settings(Applied(options), traceFile.value, levelArgs), trace, report)
  {
    var parsed := Validate(options, traceFile, opens, levelArgs);
    if parsed.Rejected? {
      return Silent, REJECTED_STATUS;
    }
    ProblemFree(options, traceFile, opens, levelArgs);
    AppliedInRange(options);
    report := Simulate(parsed.settings, trace);
    status := 0;
  }

  // ---------------------------------------------------------------------
  // The earlier simulator, without replacement
  // ---------------------------------------------------------------------

  /** What each log mode of the earlier simulator reports and its status:
      `va2pa` and `vpns_pfn` hand out frames in order of first use and stop
      with status 1 when a new page finds every frame in use; any other mode,
      `summary` included, reports nothing. */
  ghost predicate ReportsWithoutReplacement(settings: Settings, trace: seq<Word>, report: Report,
                                            frames: seq<int>, status: int)
    requires WidthsOk(settings.levelBits)
  {
    var levelBits, o := settings.levelBits, settings.options;
    if o.logMode == "bitmasks" then
      report.Bitmasks? && MasksOf(levelBits, report.masks) && status == 0
    else if o.logMode == "va2pa" then
      && report.Translations?
      && RanWithoutReplacement(levelBits, trace, o.numAccesses, o.availFrames, frames, status)
      && Translated(levelBits, trace, frames, report.paddrs)
    else if o.logMode == "vpns_pfn" then
      && report.PieceLists?
      && RanWithoutReplacement(levelBits, trace, o.numAccesses, o.availFrames, frames, status)
      && PiecesListed(levelBits, trace, frames, report.pieceRecords)
    else if o.logMode == "offset" then
      report.Offsets? && OffsetsOf(levelBits, trace, o.numAccesses, report.offsets) && status == 0
    else
      report == Silent && status == 0
  }

  /** The earlier `main` once the command line is accepted:
      `initFromLevelBits`, then the log mode. */
  method SimulateWithoutReplacement(settings: Settings, trace: seq<Word>)
    returns (report: Report, ghost frames: seq<int>, status: int)
    requires WidthsOk(settings.levelBits)
    ensures ReportsWithoutReplacement(settings, trace, report, frames, status)
  {
    var o := settings.options;
    var pt := new PageTable();
    pt.InitFromLevelBits(settings.levelBits);
    assert Ready(pt, []);
    frames, status := [], 0;
    if o.logMode == "bitmasks" {
      report := Bitmasks(pt.bitmasks);
    } else if o.logMode == "va2pa" {
      var paddrs;
      paddrs, frames, status := RunVa2paWithoutReplacement(pt, trace, o.numAccesses, o.availFrames);
      report := Translations(paddrs);
    } else if o.logMode == "vpns_pfn" {
      var records;
      records, frames, status := RunVpnsPfnWithoutReplacement(pt, trace, o.numAccesses, o.availFrames);
      report := PieceLists(records);
    } else if o.logMode == "offset" {
      var offsets := RunOffset(pt, trace, o.numAccesses);
      report := Offsets(offsets);
    } else {
      report := Silent;
    }
  }

  /** The whole earlier program: a rejected command line reports nothing
      with status 0; an accepted one runs its log mode, and its status is
      1 exactly when `va2pa` or `vpns_pfn` ran out of frames. */
  method LaunchWithoutReplacement(options: seq<Flag>, traceFile: Option<string>, opens: bool,
                                  levelArgs: seq<Int32>, trace: seq<Word>)
    returns (report: Report, status: int, ghost frames: seq<int>)
    requires Problem(options, traceFile, opens, levelArgs).None? ==> |levelArgs| >= 1
    ensures Problem(options, traceFile, opens, levelArgs).Some? ==> report == Silent && status == 0
    ensures Problem(options, traceFile, opens, levelArgs).None? ==>
      && WidthsOk(levelArgs)
      && ReportsWithoutReplacement(Settings(Applied(options), traceFile.value, levelArgs), trace, report, frames, status)
  {
    var parsed := Validate(options, traceFile, opens, levelArgs);
    if parsed.Rejected? {
      return Silent, REJECTED_STATUS, [];
    }
    ProblemFree(options, traceFile, opens, levelArgs);
    report, frames, status := SimulateWithoutReplacement(parsed.settings, trace);
  }
}
