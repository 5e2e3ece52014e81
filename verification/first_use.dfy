/**
 * The reference for the earlier simulator, without page replacement:
 * `FirstUses`, the pages of a trace in the order of their first access.
 * Frame `i` belongs to the `i`-th page first used; the predicates here say
 * what a run has produced so far and how it ended.
 */
module FirstUse {
  import opened Bits
  import opened Layout
  import opened PageTables
  import opened Simulator
  import opened Runs
  // ---------------------------------------------------------------------
  // Reference: first uses
  // ---------------------------------------------------------------------

  /** The pages of `trace`, each once, in the order of their first access. */
  ghost function FirstUses(levelBits: seq<nat>, trace: seq<Word>): (pages: seq<nat>)
    requires WidthsOk(levelBits)
    ensures |pages| <= |trace|
    decreases |trace|
  {
    if trace == [] then []
    else
      var earlier := FirstUses(levelBits, trace[..|trace| - 1]);
      var vpn := VpnOf(levelBits, trace[|trace| - 1]);
      if vpn in earlier then earlier else earlier + [vpn]
  }

  /** No page is listed twice. */
  lemma {:induction false} FirstUsesDistinct(levelBits: seq<nat>, trace: seq<Word>)
    requires WidthsOk(levelBits)
    ensures forall i, j | 0 <= i < j < |FirstUses(levelBits, trace)| ::
      FirstUses(levelBits, trace)[i] != FirstUses(levelBits, trace)[j]
    decreases |trace|
  {
    if trace != [] {
      FirstUsesDistinct(levelBits, trace[..|trace| - 1]);
    }
  }

  /** The listed pages are exactly the pages the trace touches. */
  lemma {:induction false} FirstUsesCover(levelBits: seq<nat>, trace: seq<Word>)
    requires WidthsOk(levelBits)
    ensures forall k | 0 <= k < |trace| :: VpnOf(levelBits, trace[k]) in FirstUses(levelBits, trace)
    ensures forall vpn | vpn in FirstUses(levelBits, trace) ::
      exists k | 0 <= k < |trace| :: VpnOf(levelBits, trace[k]) == vpn
    decreases |trace|
  {
    if trace != [] {
      var init := trace[..|trace| - 1];
      FirstUsesCover(levelBits, init);
      forall k | 0 <= k < |trace| - 1
        ensures VpnOf(levelBits, trace[k]) in FirstUses(levelBits, trace)
      {
        assert trace[k] == init[k];
      }
      forall vpn | vpn in FirstUses(levelBits, trace)
        ensures exists k | 0 <= k < |trace| :: VpnOf(levelBits, trace[k]) == vpn
      {
        if vpn in FirstUses(levelBits, init) {
          var k :| 0 <= k < |init| && VpnOf(levelBits, init[k]) == vpn;
          assert trace[k] == init[k];
        } else {
          assert VpnOf(levelBits, trace[|trace| - 1]) == vpn;
        }
      }
    }
  }

  /** One more address extends the list by its page if that page is new. */
  lemma FirstUsesStep(levelBits: seq<nat>, trace: seq<Word>, n: nat)
    requires WidthsOk(levelBits) && n < |trace|
    ensures FirstUses(levelBits, trace[..n + 1]) ==
      var earlier := FirstUses(levelBits, trace[..n]);
      if VpnOf(levelBits, trace[n]) in earlier then earlier else earlier + [VpnOf(levelBits, trace[n])]
  {
    assert trace[..n + 1][..n] == trace[..n];
  }

  // ---------------------------------------------------------------------
  // Agreement between the table and the first uses
  // ---------------------------------------------------------------------

  /** The valid entries give frame `i` to page `seen[i]`, and nothing else. */
  ghost predicate HandedOut(levelBits: seq<nat>, slots: map<seq<nat>, int>, seen: seq<nat>)
    requires WidthsOk(levelBits)
  {
    && (forall i | 0 <= i < |seen| ::
          && VpnInRange(levelBits, seen[i])
          && VpnPath(levelBits, seen[i]) in slots && slots[VpnPath(levelBits, seen[i])] == i)
    && (forall q | q in slots :: 0 <= slots[q] < |seen| && VpnPath(levelBits, seen[slots[q]]) == q)
  }

  /** Under `HandedOut`, an address translates exactly when its page was
      seen, and then to the page's position in `seen`. */
  lemma TranslatesToPosition(levelBits: seq<nat>, slots: map<seq<nat>, int>, seen: seq<nat>, va: Word)
    requires WidthsOk(levelBits) && HandedOut(levelBits, slots, seen)
    ensures TranslateIn(levelBits, slots, va).Some? <==> VpnOf(levelBits, va) in seen
    ensures TranslateIn(levelBits, slots, va).Some? ==>
      var i := TranslateIn(levelBits, slots, va).value;
      0 <= i < |seen| && seen[i] == VpnOf(levelBits, va)
  {
    var vpn := VpnOf(levelBits, va);
    var path := PathOf(levelBits, va);
    VpnBound(levelBits, va);
    assert path == VpnPath(levelBits, vpn);
    if path in slots {
      VpnPathInjective(levelBits, seen[slots[path]], vpn);
    }
    if vpn in seen {
      var i :| 0 <= i < |seen| && seen[i] == vpn;
      assert VpnPath(levelBits, seen[i]) in slots;
    }
  }

  /** Mapping a new page to the next frame keeps the agreement. */
  lemma HandedOutAfterMiss(levelBits: seq<nat>, slots: map<seq<nat>, int>, seen: seq<nat>, va: Word)
    requires WidthsOk(levelBits) && HandedOut(levelBits, slots, seen)
    requires PathOf(levelBits, va) !in slots
    ensures HandedOut(levelBits, slots[PathOf(levelBits, va) := |seen|], seen + [VpnOf(levelBits, va)])
  {
    var slots' := slots[PathOf(levelBits, va) := |seen|];
    var seen' := seen + [VpnOf(levelBits, va)];
    VpnBound(levelBits, va);
    forall q | q in slots'
      ensures 0 <= slots'[q] < |seen'| && VpnPath(levelBits, seen'[slots'[q]]) == q
    {
      if q != PathOf(levelBits, va) {
        assert seen'[slots[q]] == seen[slots[q]];
      }
    }
  }

  // ---------------------------------------------------------------------
  // Runs, on values
  // ---------------------------------------------------------------------

  /** The first `|frames|` addresses got the frames of their pages'
      positions in `seen`, the list of first uses so far. */
  ghost predicate ByFirstUse(levelBits: seq<nat>, trace: seq<Word>, seen: seq<nat>, frames: seq<int>)
    requires WidthsOk(levelBits)
  {
    && |frames| <= |trace| && seen == FirstUses(levelBits, trace[..|frames|])
    && forall k | 0 <= k < |frames| :: 0 <= frames[k] < |seen| && seen[frames[k]] == VpnOf(levelBits, trace[k])
  }

  /** A run of the earlier program part way through: within the trace and
      the access limit, frames given by first use, and no more pages than
      frames unless none was used yet. */
  ghost predicate Progress(levelBits: seq<nat>, trace: seq<Word>, numAccesses: int, numFrames: int,
                           seen: seq<nat>, frames: seq<int>)
    requires WidthsOk(levelBits)
  {
    && (numAccesses > 0 ==> |frames| <= numAccesses)
    && ByFirstUse(levelBits, trace, seen, frames)
    && (|seen| == 0 || |seen| <= numFrames)
  }

  /** The next address keeps `Progress` when it gets its page's position,
      or the next position if its page is new and a frame is left. */
  lemma ProgressStep(levelBits: seq<nat>, trace: seq<Word>, numAccesses: int, numFrames: int,
                     seen: seq<nat>, frames: seq<int>, pfn: int)
    requires WidthsOk(levelBits) && Progress(levelBits, trace, numAccesses, numFrames, seen, frames)
    requires |frames| < |trace| && (numAccesses > 0 ==> |frames| < numAccesses)
    requires VpnOf(levelBits, trace[|frames|]) in seen ==> 0 <= pfn < |seen| && seen[pfn] == VpnOf(levelBits, trace[|frames|])
    requires VpnOf(levelBits, trace[|frames|]) !in seen ==> pfn == |seen| < numFrames
    ensures FirstUses(levelBits, trace[..|frames| + 1]) ==
      if VpnOf(levelBits, trace[|frames|]) in seen then seen else seen + [VpnOf(levelBits, trace[|frames|])]
    ensures Progress(levelBits, trace, numAccesses, numFrames, FirstUses(levelBits, trace[..|frames| + 1]), frames + [pfn])
  {
    var n := |frames|;
    FirstUsesStep(levelBits, trace, n);
    ByFirstUseStep(levelBits, trace, seen, FirstUses(levelBits, trace[..n + 1]), frames, pfn);
  }

  /** The frames part of `ProgressStep`. */
  lemma ByFirstUseStep(levelBits: seq<nat>, trace: seq<Word>, seen: seq<nat>, seen': seq<nat>, frames: seq<int>, pfn: int)
    requires WidthsOk(levelBits) && ByFirstUse(levelBits, trace, seen, frames) && |frames| < |trace|
    requires seen' == FirstUses(levelBits, trace[..|frames| + 1])
    requires seen' == if VpnOf(levelBits, trace[|frames|]) in seen then seen else seen + [VpnOf(levelBits, trace[|frames|])]
    requires 0 <= pfn < |seen'| && seen'[pfn] == VpnOf(levelBits, trace[|frames|])
    ensures ByFirstUse(levelBits, trace, seen', frames + [pfn])
  {
    var n := |frames|;
    forall k | 0 <= k < n + 1
      ensures 0 <= (frames + [pfn])[k] < |seen'| && seen'[(frames + [pfn])[k]] == VpnOf(levelBits, trace[k])
    {
      if k < n {
        assert (frames + [pfn])[k] == frames[k];
        assert seen'[frames[k]] == seen[frames[k]];
      }
    }
  }

  /** How a run of the earlier program ended after the addresses that got
      `frames`: status 0 once the trace or the access limit is used up,
      status 1 at the first address whose page is new while every frame is
      in use. Each address got the frame of its page's first-use position,
      addresses share a frame exactly when they are on the same page, and
      every frame is below `numFrames`. */
  ghost predicate RanWithoutReplacement(levelBits: seq<nat>, trace: seq<Word>, numAccesses: int, numFrames: int,
                                        frames: seq<int>, status: int)
    requires WidthsOk(levelBits)
  {
    var n := |frames|;
    && n <= Processed(numAccesses, |trace|)
    && (status == 0 || status == 1)
    && (status == 0 <==> n == Processed(numAccesses, |trace|))
    && (status == 0 ==> n == 0 || |FirstUses(levelBits, trace[..n])| <= numFrames)
    && (status == 1 ==>
          && VpnOf(levelBits, trace[n]) !in FirstUses(levelBits, trace[..n])
          && |FirstUses(levelBits, trace[..n])| >= numFrames)
    && ByFirstUse(levelBits, trace, FirstUses(levelBits, trace[..n]), frames)
    && (forall k, k' | 0 <= k < n && 0 <= k' < n ::
          frames[k] == frames[k'] <==> VpnOf(levelBits, trace[k]) == VpnOf(levelBits, trace[k']))
    && (forall k | 0 <= k < n :: 0 <= frames[k] < numFrames)
  }

  /** A run stops with status 0 when the loop condition fails, and with
      status 1 on a new page once `|seen|` frames, at least `numFrames`,
      are in use. Frames by first-use position are shared exactly by
      addresses on the same page, since no page is listed twice. */
  lemma RunEnds(levelBits: seq<nat>, trace: seq<Word>, numAccesses: int, numFrames: int,
                seen: seq<nat>, frames: seq<int>, status: int)
    requires WidthsOk(levelBits) && Progress(levelBits, trace, numAccesses, numFrames, seen, frames)
    requires status == 0 ==> !((numAccesses <= 0 || |frames| < numAccesses) && |frames| < |trace|)
    requires status == 1 ==>
      && |frames| < |trace| && (numAccesses > 0 ==> |frames| < numAccesses)
      && VpnOf(levelBits, trace[|frames|]) !in seen && |seen| >= numFrames
    requires status == 0 || status == 1
    ensures RanWithoutReplacement(levelBits, trace, numAccesses, numFrames, frames, status)
  {
    FirstUsesDistinct(levelBits, trace[..|frames|]);
  }
}
