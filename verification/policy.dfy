/**
 * The replacement policy of the simulator as values. `Step` is what one
 * access to a page does to the NFU state and the next free frame:
 * `beforeAccessNFU`, then a hit, a miss that takes the next free frame, or
 * a miss that evicts the NFU victim and hands its frame to the new page.
 * `Run` is a whole sequence of page numbers from the state `initNFUState`
 * leaves.
 *
 * The simulator's methods are proved to follow `Step` access by access;
 * the lemmas below state what the policy promises about every access of
 * a run.
 */
module Policy {
  import opened Wrappers
  import opened Nfu

  /** What an access did. */
  datatype Outcome = Hit | Filled | Replaced(victimVpn: nat, victimBitstring: nat)

  /** What an access did and the frame its page is in afterwards. */
  datatype Event = Event(outcome: Outcome, pfn: int)

  /** The NFU state between accesses and the next frame never handed out. */
  datatype Memory = Memory(pages: seq<LoadedPage>, accessed: set<nat>, currentTime: nat, timeSinceTick: nat,
                           nextFreePfn: int)

  /** The state `initNFUState` leaves, before any frame is handed out. */
  const INITIAL: Memory := Memory([], {}, 0, 0, 0)

  /** The index of the loaded page `vpn`, if it is loaded. */
  function FindPage(pages: seq<LoadedPage>, vpn: nat): (r: Option<nat>)
    ensures r.Some? ==> r.value < |pages| && pages[r.value].vpn == vpn
    ensures r.None? <==> forall i | 0 <= i < |pages| :: pages[i].vpn != vpn
  {
    if |pages| == 0 then None
    else if pages[|pages| - 1].vpn == vpn then Some(|pages| - 1)
    else FindPage(pages[..|pages| - 1], vpn)
  }

  /** `beforeAccessNFU`: both clocks advance; when the tick is due every
      page is aged and the accessed set is forgotten. */
  function Clocked(m: Memory, interval: int): (c: Memory)
    ensures c.currentTime == m.currentTime + 1 && c.nextFreePfn == m.nextFreePfn
    ensures c.timeSinceTick == NextSinceTick(m.timeSinceTick, interval)
    ensures |c.pages| == |m.pages|
    ensures forall i | 0 <= i < |m.pages| ::
      && c.pages[i].pfn == m.pages[i].pfn && c.pages[i].vpn == m.pages[i].vpn
      && c.pages[i].lastAccessTime == m.pages[i].lastAccessTime
    ensures TickDue(m.timeSinceTick, interval) ==> c.accessed == {}
    ensures !TickDue(m.timeSinceTick, interval) ==> c.pages == m.pages && c.accessed == m.accessed
  {
    if TickDue(m.timeSinceTick, interval) then
      m.(pages := AgedPages(m.pages, m.accessed), accessed := {}, currentTime := m.currentTime + 1,
         timeSinceTick := 0)
    else
      m.(currentTime := m.currentTime + 1, timeSinceTick := NextSinceTick(m.timeSinceTick, interval))
  }

  /** The three branches of an access to page `vpn` once the clocks have
      moved. A loaded page records the access time. A missing page takes
      the next free frame while `isFullNFU` is false, and otherwise the slot
      and frame of the victim, which leaves the accessed set. Either way the
      page joins the accessed set. */
  function Chosen(m: Memory, maxFrames: Int32, vpn: nat): (r: (Memory, Event))
    requires maxFrames >= 1
    ensures r.0.currentTime == m.currentTime && r.0.timeSinceTick == m.timeSinceTick
    ensures m.nextFreePfn <= r.0.nextFreePfn <= m.nextFreePfn + 1
  {
    match FindPage(m.pages, vpn)
    case Some(i) =>
      (m.(pages := m.pages[i := m.pages[i].(lastAccessTime := m.currentTime)], accessed := m.accessed + {vpn}),
       Event(Hit, m.pages[i].pfn))
    case None =>
      if !FullAt(|m.pages|, maxFrames) then
        (m.(pages := m.pages + [LoadedPage(m.nextFreePfn, vpn, MSB, m.currentTime)],
            accessed := m.accessed + {vpn}, nextFreePfn := m.nextFreePfn + 1),
         Event(Filled, m.nextFreePfn))
      else
        var v := VictimOf(m.pages);
        (m.(pages := m.pages[v := LoadedPage(m.pages[v].pfn, vpn, MSB, m.currentTime)],
            accessed := m.accessed - {m.pages[v].vpn} + {vpn}),
         Event(Replaced(m.pages[v].vpn, m.pages[v].bitstring), m.pages[v].pfn))
  }

  /** One access to page `vpn`. */
  function Step(m: Memory, maxFrames: Int32, interval: int, vpn: nat): (r: (Memory, Event))
    requires maxFrames >= 1
    ensures r.0.currentTime == m.currentTime + 1
    ensures m.nextFreePfn <= r.0.nextFreePfn <= m.nextFreePfn + 1
  {
    Chosen(Clocked(m, interval), maxFrames, vpn)
  }

  /** The accesses to `vpns`, in order, from the initial state: the state
      after the last one and what each access did. */
  function Run(maxFrames: Int32, interval: int, vpns: seq<nat>): (r: (Memory, seq<Event>))
    requires maxFrames >= 1
    ensures |r.1| == |vpns|
  {
    if |vpns| == 0 then (INITIAL, [])
    else
      var before := Run(maxFrames, interval, vpns[..|vpns| - 1]);
      var after := Step(before.0, maxFrames, interval, vpns[|vpns| - 1]);
      (after.0, before.1 + [after.1])
  }

  /** The frames of a sequence of events. */
  function FramesOf(events: seq<Event>): seq<int>
  {
    seq(|events|, k requires 0 <= k < |events| => events[k].pfn)
  }

  /** Page `vpn` is loaded. */
  predicate Resident(m: Memory, vpn: nat)
  {
    exists i | 0 <= i < |m.pages| :: m.pages[i].vpn == vpn
  }

  /** What holds between accesses: page `i` sits in frame `i`, frames are
      handed out in order and never beyond `maxFrames`, no page is loaded
      twice, and bitstrings are 16 bits wide. */
  ghost predicate WellFormed(m: Memory, maxFrames: Int32)
  {
    && |m.pages| == m.nextFreePfn <= maxFrames
    && (forall i | 0 <= i < |m.pages| :: m.pages[i].pfn == i && m.pages[i].bitstring < BITSTRING_LIMIT)
    && (forall i, j | 0 <= i < j < |m.pages| :: m.pages[i].vpn != m.pages[j].vpn)
  }

  // ---------------------------------------------------------------------
  // One access
  // ---------------------------------------------------------------------

  /** The clocks move without changing which page is in which frame. */
  lemma ClockedKeepsFrames(m: Memory, maxFrames: Int32, interval: int)
    requires WellFormed(m, maxFrames)
    ensures WellFormed(Clocked(m, interval), maxFrames)
    ensures |Clocked(m, interval).pages| == |m.pages|
    ensures forall i | 0 <= i < |m.pages| :: Clocked(m, interval).pages[i].vpn == m.pages[i].vpn
  {
    if TickDue(m.timeSinceTick, interval) {
      forall i | 0 <= i < |m.pages|
        ensures AgedBitstring(m.pages[i].bitstring, m.pages[i].vpn in m.accessed) < BITSTRING_LIMIT
      {
        AgedBelow(m.pages[i].bitstring, m.pages[i].vpn in m.accessed);
      }
    }
  }

  /** A hit changes only the page's access time. */
  lemma ChosenHit(c: Memory, maxFrames: Int32, vpn: nat, i: nat)
    requires maxFrames >= 1 && WellFormed(c, maxFrames) && FindPage(c.pages, vpn) == Some(i)
    ensures var (m', e) := Chosen(c, maxFrames, vpn);
      && WellFormed(m', maxFrames) && e == Event(Hit, i) && m'.nextFreePfn == c.nextFreePfn
      && m'.pages[i].vpn == vpn && vpn in m'.accessed
  {
  }

  /** A fill appends the page in the next free frame. */
  lemma ChosenFill(c: Memory, maxFrames: Int32, vpn: nat)
    requires maxFrames >= 1 && WellFormed(c, maxFrames)
    requires FindPage(c.pages, vpn).None? && !FullAt(|c.pages|, maxFrames)
    ensures var (m', e) := Chosen(c, maxFrames, vpn);
      && WellFormed(m', maxFrames) && e == Event(Filled, c.nextFreePfn)
      && m'.nextFreePfn == c.nextFreePfn + 1 && c.nextFreePfn < maxFrames
      && m'.pages[c.nextFreePfn].vpn == vpn && vpn in m'.accessed
  {
  }

  /** A replacement puts the page in the victim's slot and frame; the
      victim is no longer loaded. */
  lemma ChosenReplace(c: Memory, maxFrames: Int32, vpn: nat)
    requires maxFrames >= 1 && WellFormed(c, maxFrames)
    requires FindPage(c.pages, vpn).None? && FullAt(|c.pages|, maxFrames)
    ensures var (m', e) := Chosen(c, maxFrames, vpn);
      var v := VictimOf(c.pages);
      && 0 <= v < |c.pages| && c.nextFreePfn == maxFrames
      && WellFormed(m', maxFrames) && e == Event(Replaced(c.pages[v].vpn, c.pages[v].bitstring), v)
      && m'.nextFreePfn == c.nextFreePfn && m'.pages[v].vpn == vpn && vpn in m'.accessed
      && c.pages[v].vpn != vpn && !Resident(m', c.pages[v].vpn)
  {
    var (m', e) := Chosen(c, maxFrames, vpn);
    var v := VictimOf(c.pages);
    forall i | 0 <= i < |m'.pages|
      ensures m'.pages[i].vpn != c.pages[v].vpn
    {
      if i != v {
        assert m'.pages[i] == c.pages[i];
      }
    }
  }

  /** What one access does, from a well-formed state: the access hits
      exactly when its page is loaded; a miss takes the next free frame
      while one is left; otherwise it evicts the victim of the pages as
      aged by this access's tick, and reports that page and its bitstring.
      Afterwards the page is in the frame reported, and the state is still
      well formed. */
  lemma StepFacts(m: Memory, maxFrames: Int32, interval: int, vpn: nat)
    requires maxFrames >= 1 && WellFormed(m, maxFrames)
    ensures var (m', e) := Step(m, maxFrames, interval, vpn);
      && WellFormed(m', maxFrames)
      && 0 <= e.pfn < maxFrames && m'.pages[e.pfn].vpn == vpn && vpn in m'.accessed
      && (e.outcome.Hit? <==> Resident(m, vpn))
      && (e.outcome.Hit? ==> m'.nextFreePfn == m.nextFreePfn && m.pages[e.pfn].vpn == vpn)
      && (e.outcome.Filled? <==> !Resident(m, vpn) && m.nextFreePfn < maxFrames)
      && (e.outcome.Filled? ==> e.pfn == m.nextFreePfn && m'.nextFreePfn == m.nextFreePfn + 1)
      && (e.outcome.Replaced? ==>
            && m.nextFreePfn == m'.nextFreePfn == maxFrames
            && IsVictim(Clocked(m, interval).pages, e.pfn)
            && e.outcome.victimVpn == m.pages[e.pfn].vpn != vpn
            && e.outcome.victimBitstring == Clocked(m, interval).pages[e.pfn].bitstring
            && !Resident(m', e.outcome.victimVpn))
  {
    var c := Clocked(m, interval);
    ClockedKeepsFrames(m, maxFrames, interval);
    assert Resident(m, vpn) <==> FindPage(c.pages, vpn).Some? by {
      if Resident(m, vpn) {
        var i :| 0 <= i < |m.pages| && m.pages[i].vpn == vpn;
        assert c.pages[i].vpn == vpn;
      }
    }
    match FindPage(c.pages, vpn)
    case Some(i) =>
      ChosenHit(c, maxFrames, vpn, i);
    case None =>
      if !FullAt(|c.pages|, maxFrames) {
        ChosenFill(c, maxFrames, vpn);
      } else {
        ChosenReplace(c, maxFrames, vpn);
      }
  }

  // ---------------------------------------------------------------------
  // A run
  // ---------------------------------------------------------------------

  /** Every state of a run is well formed. */
  lemma {:induction false} RunWellFormed(maxFrames: Int32, interval: int, vpns: seq<nat>)
    requires maxFrames >= 1
    ensures WellFormed(Run(maxFrames, interval, vpns).0, maxFrames)
    decreases |vpns|
  {
    if |vpns| > 0 {
      var prefix := vpns[..|vpns| - 1];
      RunWellFormed(maxFrames, interval, prefix);
      StepFacts(Run(maxFrames, interval, prefix).0, maxFrames, interval, vpns[|vpns| - 1]);
    }
  }

  /** One more page number is one more `Step`. */
  lemma RunSnoc(maxFrames: Int32, interval: int, vpns: seq<nat>, vpn: nat)
    requires maxFrames >= 1
    ensures var before := Run(maxFrames, interval, vpns);
      var after := Step(before.0, maxFrames, interval, vpn);
      Run(maxFrames, interval, vpns + [vpn]) == (after.0, before.1 + [after.1])
  {
    assert (vpns + [vpn])[..|vpns|] == vpns;
  }

  /** Every access of a run ends with its page in a frame below
      `maxFrames`. */
  lemma {:induction false} RunFramesInRange(maxFrames: Int32, interval: int, vpns: seq<nat>)
    requires maxFrames >= 1
    ensures forall k | 0 <= k < |vpns| :: 0 <= Run(maxFrames, interval, vpns).1[k].pfn < maxFrames
    decreases |vpns|
  {
    if |vpns| > 0 {
      var prefix := vpns[..|vpns| - 1];
      RunFramesInRange(maxFrames, interval, prefix);
      RunWellFormed(maxFrames, interval, prefix);
      StepFacts(Run(maxFrames, interval, prefix).0, maxFrames, interval, vpns[|vpns| - 1]);
    }
  }

  /** The events of a prefix of the page numbers are the events of the
      whole run cut to that length: an access does not depend on later
      ones. */
  lemma {:induction false} RunPrefix(maxFrames: Int32, interval: int, vpns: seq<nat>, k: nat)
    requires maxFrames >= 1 && k <= |vpns|
    ensures Run(maxFrames, interval, vpns[..k]).1 == Run(maxFrames, interval, vpns).1[..k]
    decreases |vpns|
  {
    if k < |vpns| {
      var prefix := vpns[..|vpns| - 1];
      assert prefix[..k] == vpns[..k];
      RunPrefix(maxFrames, interval, prefix, k);
    } else {
      assert vpns[..k] == vpns;
    }
  }

  /** Access `k` of a run is one `Step` from the state the first `k`
      accesses leave. */
  lemma EventAt(maxFrames: Int32, interval: int, vpns: seq<nat>, k: nat)
    requires maxFrames >= 1 && k < |vpns|
    ensures Run(maxFrames, interval, vpns).1[k]
         == Step(Run(maxFrames, interval, vpns[..k]).0, maxFrames, interval, vpns[k]).1
  {
    RunPrefix(maxFrames, interval, vpns, k + 1);
    assert vpns[..k + 1][..k] == vpns[..k];
  }

  // ---------------------------------------------------------------------
  // Counting outcomes
  // ---------------------------------------------------------------------

  function HitCount(events: seq<Event>): nat
  {
    if |events| == 0 then 0
    else HitCount(events[..|events| - 1]) + (if events[|events| - 1].outcome.Hit? then 1 else 0)
  }

  function FillCount(events: seq<Event>): nat
  {
    if |events| == 0 then 0
    else FillCount(events[..|events| - 1]) + (if events[|events| - 1].outcome.Filled? then 1 else 0)
  }

  function ReplacementCount(events: seq<Event>): nat
  {
    if |events| == 0 then 0
    else ReplacementCount(events[..|events| - 1]) + (if events[|events| - 1].outcome.Replaced? then 1 else 0)
  }

  /** Over a run, every access is a hit, a fill or a replacement; the fills
      are the frames handed out, never more than `maxFrames`; and no page
      is replaced before every frame has been handed out. */
  lemma {:induction false} RunTally(maxFrames: Int32, interval: int, vpns: seq<nat>)
    requires maxFrames >= 1
    ensures var (m, events) := Run(maxFrames, interval, vpns);
      && HitCount(events) + FillCount(events) + ReplacementCount(events) == |vpns|
      && FillCount(events) == m.nextFreePfn == |m.pages| <= maxFrames
      && (ReplacementCount(events) > 0 ==> FillCount(events) == maxFrames)
    decreases |vpns|
  {
    if |vpns| > 0 {
      var prefix := vpns[..|vpns| - 1];
      RunTally(maxFrames, interval, prefix);
      RunWellFormed(maxFrames, interval, prefix);
      StepFacts(Run(maxFrames, interval, prefix).0, maxFrames, interval, vpns[|vpns| - 1]);
      var events := Run(maxFrames, interval, vpns).1;
      assert events[..|events| - 1] == Run(maxFrames, interval, prefix).1;
    }
  }
}
