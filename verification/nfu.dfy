/**
 * Not-frequently-used page replacement with aging, as `nfu.cpp` runs it.
 *
 * Every loaded page carries a 16-bit aging bitstring. Each access advances
 * a virtual clock; once more than `interval` accesses have passed since the
 * last tick, every bitstring is shifted right and pages touched since that
 * tick get their top bit set. The victim is the page with the smallest
 * bitstring, ties going to the older last access and then to the lower
 * frame number.
 */
module Nfu {
  import opened Bits

  /** Top bit of a 16-bit bitstring. */
  const MSB: nat := 0x8000
  /** Bitstrings are `uint16_t`. */
  const BITSTRING_LIMIT: nat := 0x1_0000

  /** C `int`. */
  type Int32 = x: int | -0x8000_0000 <= x < 0x8000_0000

  datatype LoadedPage = LoadedPage(pfn: int, vpn: nat, bitstring: nat, lastAccessTime: nat)

  /** One tick of aging: `(uint16_t)(bitstring >> 1)`, then `| 0x8000` if the
      page was accessed since the last tick. */
  function AgedBitstring(bitstring: nat, wasAccessed: bool): nat
  {
    var s := Shr(bitstring, 1);
    if wasAccessed then Or(s, MSB) else s
  }

  function Aged(page: LoadedPage, accessed: set<nat>): LoadedPage
  {
    page.(bitstring := AgedBitstring(page.bitstring, page.vpn in accessed))
  }

  /** `vpnToIndex` is the exact inverse of the pages' vpns. */
  ghost predicate Indexed(pages: seq<LoadedPage>, vpnToIndex: map<nat, nat>)
  {
    && (forall vpn | vpn in vpnToIndex :: vpnToIndex[vpn] < |pages| && pages[vpnToIndex[vpn]].vpn == vpn)
    && (forall i | 0 <= i < |pages| :: pages[i].vpn in vpnToIndex && vpnToIndex[pages[i].vpn] == i)
  }

  /** The replacement order: `a` is evicted before `b`. */
  predicate Before(a: LoadedPage, b: LoadedPage)
  {
    || a.bitstring < b.bitstring
    || (a.bitstring == b.bitstring
        && (a.lastAccessTime < b.lastAccessTime
            || (a.lastAccessTime == b.lastAccessTime && a.pfn < b.pfn)))
  }

  /** Among the first `n` pages, index `v` is the one the scan of
      `selectVictimNFU` holds: no page comes before it, and it comes before
      every page at a lower index. */
  predicate LeadsFirst(pages: seq<LoadedPage>, n: int, v: int)
    requires 0 <= n <= |pages|
  {
    && 0 <= v < n
    && (forall j | 0 <= j < n :: !Before(pages[j], pages[v]))
    && (forall j | 0 <= j < v :: Before(pages[v], pages[j]))
  }

  /** Index `v` is the one `selectVictimNFU` picks from `pages`. */
  predicate IsVictim(pages: seq<LoadedPage>, v: int)
  {
    LeadsFirst(pages, |pages|, v)
  }

  /** The index the scan of `selectVictimNFU` holds after the first `n`
      pages: a page replaces the one held only if it comes before it. */
  function VictimAmong(pages: seq<LoadedPage>, n: int): (v: int)
    requires 1 <= n <= |pages|
    ensures LeadsFirst(pages, n, v)
  {
    if n == 1 then 0
    else
      var v := VictimAmong(pages, n - 1);
      if Before(pages[n - 1], pages[v]) then n - 1 else v
  }

  /** The victim of a non-empty page list. */
  function VictimOf(pages: seq<LoadedPage>): int
    requires |pages| > 0
  {
    VictimAmong(pages, |pages|)
  }

  /** The tick test of `beforeAccessNFU`, `timeSinceTick > interval` after
      the increment: the counter is a `uint32_t` that wraps, and the `int`
      interval is converted to `uint32_t` for the comparison. */
  predicate TickDue(timeSinceTick: nat, interval: int): (due: bool)
    ensures 0 <= interval < WORD && timeSinceTick + 1 < WORD ==> (due <==> timeSinceTick >= interval)
    ensures -WORD <= interval < 0 && timeSinceTick + 1 < WORD ==> (due <==> timeSinceTick + 1 > interval + WORD)
    ensures timeSinceTick + 1 == WORD ==> !due
  {
    (timeSinceTick + 1) % WORD > interval % WORD
  }

  /** `timeSinceTick` after one more access. */
  function NextSinceTick(timeSinceTick: nat, interval: int): nat
  {
    if TickDue(timeSinceTick, interval) then 0 else (timeSinceTick + 1) % WORD
  }

  /** `isFullNFU` with `count` pages loaded: `maxFrames` is compared as a
      `size_t`. */
  predicate FullAt(count: nat, maxFrames: int): (full: bool)
    ensures 0 <= maxFrames ==> (full <==> count >= maxFrames % 0x1_0000_0000_0000_0000)
    ensures 0 <= maxFrames < 0x1_0000_0000_0000_0000 ==> (full <==> count >= maxFrames)
    ensures -0x1_0000_0000_0000_0000 <= maxFrames < 0 ==> (full <==> count >= maxFrames + 0x1_0000_0000_0000_0000)
  {
    count >= maxFrames % 0x1_0000_0000_0000_0000
  }

  /** One tick of aging applied to every page. */
  function AgedPages(pages: seq<LoadedPage>, accessed: set<nat>): seq<LoadedPage>
  {
    seq(|pages|, i requires 0 <= i < |pages| => Aged(pages[i], accessed))
  }

  /** `timeSinceTick` after `k` accesses from a fresh state. */
  function SinceTickAfter(interval: int, k: nat): nat
  {
    if k == 0 then 0 else NextSinceTick(SinceTickAfter(interval, k - 1), interval)
  }

  /** The global `nfuState`. */
  class NfuState {
    var pages: seq<LoadedPage>
    var vpnToIndex: map<nat, nat>
    var accessed: set<nat>
    var currentTime: nat
    var timeSinceTick: nat
    const maxFrames: Int32
    const interval: Int32

    ghost predicate Valid()
      reads this
    {
      && Indexed(pages, vpnToIndex)
      && accessed <= vpnToIndex.Keys
      && (forall i | 0 <= i < |pages| :: pages[i].bitstring < BITSTRING_LIMIT)
    }

    /** `initNFUState`: no pages, clocks at zero. */
    constructor (numFrames: Int32, updateInterval: Int32)
      ensures Valid()
      ensures pages == [] && vpnToIndex == map[] && accessed == {}
      ensures currentTime == 0 && timeSinceTick == 0
      ensures maxFrames == numFrames && interval == updateInterval
    {
      pages := [];
      vpnToIndex := map[];
      accessed := {};
      maxFrames := numFrames;
      interval := updateInterval;
      currentTime := 0;
      timeSinceTick := 0;
    }

    /** `tickNFU`: ages every page, forgets which pages were accessed and
        restarts the interval. */
    method Tick()
      requires Valid()
      modifies this
      ensures Valid()
      ensures pages == AgedPages(old(pages), old(accessed))
      ensures accessed == {} && timeSinceTick == 0
      ensures vpnToIndex == old(vpnToIndex) && currentTime == old(currentTime)
    {
      var i := 0;
      while i < |pages|
        invariant 0 <= i <= |pages| == |old(pages)|
        invariant forall j | 0 <= j < i :: pages[j] == Aged(old(pages)[j], accessed)
        invariant forall j | i <= j < |pages| :: pages[j] == old(pages)[j]
        invariant accessed == old(accessed) && vpnToIndex == old(vpnToIndex)
        invariant currentTime == old(currentTime)
      {
        var page := pages[i];
        var s := Shr(page.bitstring, 1);
        if page.vpn in accessed {
          s := Or(s, MSB);
        }
        pages := pages[i := page.(bitstring := s)];
        i := i + 1;
      }
      forall j | 0 <= j < |pages|
        ensures pages[j].vpn == old(pages)[j].vpn && pages[j].bitstring < BITSTRING_LIMIT
      {
        AgedBelow(old(pages)[j].bitstring, old(pages)[j].vpn in accessed);
      }
      assert pages == AgedPages(old(pages), accessed);
      accessed := {};
      timeSinceTick := 0;
    }

    /** `beforeAccessNFU`: advances both clocks and ticks once the counter
        of accesses since the last tick exceeds `interval`, both compared
        as `uint32_t`. */
    method BeforeAccess()
      requires Valid()
      modifies this
      ensures Valid()
      ensures currentTime == old(currentTime) + 1
      ensures timeSinceTick == NextSinceTick(old(timeSinceTick), interval)
      ensures TickDue(old(timeSinceTick), interval) ==>
        pages == AgedPages(old(pages), old(accessed)) && accessed == {}
      ensures !TickDue(old(timeSinceTick), interval) ==> pages == old(pages) && accessed == old(accessed)
      ensures vpnToIndex == old(vpnToIndex)
    {
      currentTime := currentTime + 1;
      timeSinceTick := (timeSinceTick + 1) % WORD;
      if timeSinceTick > interval % WORD {
        Tick();
      }
    }

    /** `onHitNFU`: a loaded page records the access time and is marked
        accessed; an unknown vpn changes nothing. */
    method OnHit(vpn: nat)
      requires Valid()
      modifies this
      ensures Valid()
      ensures vpn in old(vpnToIndex) ==>
        && pages == old(pages)[old(vpnToIndex)[vpn] := old(pages)[old(vpnToIndex)[vpn]].(lastAccessTime := currentTime)]
        && accessed == old(accessed) + {vpn}
      ensures vpn !in old(vpnToIndex) ==> pages == old(pages) && accessed == old(accessed)
      ensures vpnToIndex == old(vpnToIndex) && currentTime == old(currentTime)
      ensures timeSinceTick == old(timeSinceTick)
    {
      if vpn in vpnToIndex {
        var index := vpnToIndex[vpn];
        pages := pages[index := pages[index].(lastAccessTime := currentTime)];
        accessed := accessed + {vpn};
      }
    }

    /** `onMissNFU`: appends the page with only the top bit set and marks it
        accessed. The index stays exact when the vpn was not loaded. */
    method OnMiss(vpn: nat, pfn: int)
      requires Valid()
      modifies this
      ensures vpn !in old(vpnToIndex) ==> Valid()
      ensures pages == old(pages) + [LoadedPage(pfn, vpn, MSB, currentTime)]
      ensures vpnToIndex == old(vpnToIndex)[vpn := |old(pages)|]
      ensures accessed == old(accessed) + {vpn}
      ensures currentTime == old(currentTime) && timeSinceTick == old(timeSinceTick)
    {
      pages := pages + [LoadedPage(pfn, vpn, MSB, currentTime)];
      vpnToIndex := vpnToIndex[vpn := |pages| - 1];
      accessed := accessed + {vpn};
    }

    /** `isFullNFU`: `maxFrames` is compared as a `size_t`. */
    function IsFull(): (full: bool)
      reads this
      ensures maxFrames >= 0 ==> (full <==> |pages| >= maxFrames)
      ensures maxFrames < 0 ==> (full <==> |pages| >= maxFrames + 0x1_0000_0000_0000_0000)
    {
      FullAt(|pages|, maxFrames)
    }

    /** `selectVictimNFU`: -1 when nothing is loaded, otherwise the first
        index of the page that comes first in the replacement order. */
    method SelectVictim() returns (victimIndex: int)
      ensures |pages| == 0 ==> victimIndex == -1
      ensures |pages| > 0 ==> victimIndex == VictimOf(pages) && IsVictim(pages, victimIndex)
      ensures |pages| > 0 ==> forall j | 0 <= j < |pages| :: pages[victimIndex].bitstring <= pages[j].bitstring
    {
      if |pages| == 0 {
        return -1;
      }
      victimIndex := 0;
      var i := 1;
      while i < |pages|
        invariant 1 <= i <= |pages|
        invariant victimIndex == VictimAmong(pages, i)
      {
        var candidate1 := pages[i];
        var candidate2 := pages[victimIndex];
        if candidate1.bitstring < candidate2.bitstring
          || (candidate1.bitstring == candidate2.bitstring
              && (candidate1.lastAccessTime < candidate2.lastAccessTime
                  || (candidate1.lastAccessTime == candidate2.lastAccessTime && candidate1.pfn < candidate2.pfn)))
        {
          victimIndex := i;
        }
        i := i + 1;
      }
    }

    /** `reuseSlotNFU`: the victim's slot takes `newVpn` with only the top
        bit set; returns the victim's old vpn and bitstring. */
    method ReuseSlot(victimIndex: int, newVpn: nat) returns (oldVpn: nat, oldBitstring: nat)
      requires Valid() && 0 <= victimIndex < |pages|
      modifies this
      ensures newVpn !in old(vpnToIndex) || newVpn == old(pages)[victimIndex].vpn ==> Valid()
      ensures oldVpn == old(pages)[victimIndex].vpn && oldBitstring == old(pages)[victimIndex].bitstring
      ensures pages == old(pages)[victimIndex := LoadedPage(old(pages)[victimIndex].pfn, newVpn, MSB, currentTime)]
      ensures vpnToIndex == (old(vpnToIndex) - {oldVpn})[newVpn := victimIndex]
      ensures accessed == (old(accessed) - {oldVpn}) + {newVpn}
      ensures currentTime == old(currentTime) && timeSinceTick == old(timeSinceTick)
    {
      var victimPage := pages[victimIndex];
      oldVpn := victimPage.vpn;
      oldBitstring := victimPage.bitstring;
      vpnToIndex := vpnToIndex - {oldVpn};
      accessed := accessed - {oldVpn};
      pages := pages[victimIndex := victimPage.(vpn := newVpn, bitstring := MSB, lastAccessTime := currentTime)];
      vpnToIndex := vpnToIndex[newVpn := victimIndex];
      accessed := accessed + {newVpn};
    }
  }

  // ---------------------------------------------------------------------
  // Aging
  // ---------------------------------------------------------------------

  /** A tick halves the bitstring and adds the top bit for accessed pages. */
  lemma AgedValue(bitstring: nat, wasAccessed: bool)
    requires bitstring < BITSTRING_LIMIT
    ensures AgedBitstring(bitstring, wasAccessed) == bitstring / 2 + (if wasAccessed then MSB else 0)
  {
    ShrDiv(bitstring, 1);
    if wasAccessed {
      assert Pow2(15) == MSB by {
        assert Pow2(4) == 16;
        Pow2Add(4, 4);
        Pow2Add(8, 7);
        assert Pow2(7) == 128;
      }
      OrDisjoint(1, bitstring / 2, 15);
      OrComm(bitstring / 2, MSB);
    }
  }

  /** Aged bitstrings stay 16 bits wide. */
  lemma AgedBelow(bitstring: nat, wasAccessed: bool)
    requires bitstring < BITSTRING_LIMIT
    ensures AgedBitstring(bitstring, wasAccessed) < BITSTRING_LIMIT
  {
    AgedValue(bitstring, wasAccessed);
  }

  /** After a tick, a page accessed in the interval has its top bit set and
      one that was not has it clear and has not grown. */
  lemma AgedTopBit(bitstring: nat, wasAccessed: bool)
    requires bitstring < BITSTRING_LIMIT
    ensures wasAccessed ==> MSB <= AgedBitstring(bitstring, wasAccessed) < BITSTRING_LIMIT
    ensures !wasAccessed ==> AgedBitstring(bitstring, wasAccessed) < MSB
    ensures !wasAccessed ==> AgedBitstring(bitstring, wasAccessed) <= bitstring
  {
    AgedValue(bitstring, wasAccessed);
  }

  /** Right after a tick, every page accessed in the interval comes after
      every page that was not, so it is not the victim while such a page
      exists. */
  lemma AccessedPagesOutrankIdle(old_pages: seq<LoadedPage>, accessed: set<nat>, pages: seq<LoadedPage>, i: int, j: int)
    requires |pages| == |old_pages|
    requires forall k | 0 <= k < |old_pages| :: old_pages[k].bitstring < BITSTRING_LIMIT
    requires forall k | 0 <= k < |pages| :: pages[k] == Aged(old_pages[k], accessed)
    requires 0 <= i < |pages| && 0 <= j < |pages|
    requires old_pages[i].vpn in accessed && old_pages[j].vpn !in accessed
    ensures Before(pages[j], pages[i])
    ensures !IsVictim(pages, i)
  {
    AgedTopBit(old_pages[i].bitstring, true);
    AgedTopBit(old_pages[j].bitstring, false);
  }

  // ---------------------------------------------------------------------
  // Victim selection
  // ---------------------------------------------------------------------

  /** At most one index is the victim. */
  lemma VictimUnique(pages: seq<LoadedPage>, v: int, w: int)
    requires IsVictim(pages, v) && IsVictim(pages, w)
    ensures v == w
  {
    assert !Before(pages[w], pages[v]) && !Before(pages[v], pages[w]);
  }

  // ---------------------------------------------------------------------
  // Tick period
  // ---------------------------------------------------------------------

  /** While the counter and the interval fit in 32 bits, the conversions
      change nothing: a tick is due once the counter passes the interval. */
  lemma NextSinceTickNarrow(timeSinceTick: nat, interval: nat)
    requires timeSinceTick + 1 < WORD && interval < WORD
    ensures TickDue(timeSinceTick, interval) <==> timeSinceTick + 1 > interval
    ensures NextSinceTick(timeSinceTick, interval) == if timeSinceTick + 1 > interval then 0 else timeSinceTick + 1
  {
    DivModUnique(timeSinceTick + 1, WORD, 0, timeSinceTick + 1);
    DivModUnique(interval, WORD, 0, interval);
  }

  /** Starting from a fresh state and with a non-negative `int` interval,
      `timeSinceTick` is the access count modulo `interval + 1`, so a tick
      happens on every `(interval + 1)`-th access. */
  lemma {:induction false} TickPeriod(interval: nat, k: nat)
    requires interval < 0x8000_0000
    ensures SinceTickAfter(interval, k) == k % (interval + 1)
    ensures k > 0 ==> (TickDue(SinceTickAfter(interval, k - 1), interval) <==> k % (interval + 1) == 0)
  {
    if k > 0 {
      TickPeriod(interval, k - 1);
      ModSucc(k - 1, interval + 1);
      NextSinceTickNarrow(SinceTickAfter(interval, k - 1), interval);
    }
  }

  /** An interval of -1 converts to `0xFFFFFFFF`, which the wrapping counter
      never exceeds: no tick ever happens. */
  lemma AllOnesIntervalNeverTicks(timeSinceTick: nat)
    ensures !TickDue(timeSinceTick, -1)
  {
  }

  /** Two frames, an update every 2 accesses, and three new pages 0, 4 and
      8 (the addresses 0x00000000, 0x40000000 and 0x80000000 with levels
      2 and 2): the first two fill both frames, the third access ticks
      first, so both pages age to 0xC000, and the tie on the bitstring goes
      to the page last used earlier, page 0 in frame 0. */
  method TieBreakScenario() returns (victimIndex: int, oldVpn: nat, oldBitstring: nat)
    ensures victimIndex == 0 && oldVpn == 0 && oldBitstring == 0xC000
  {
    var nfu := new NfuState(2, 2);
    nfu.BeforeAccess();
    nfu.OnMiss(0, 0);
    nfu.BeforeAccess();
    nfu.OnMiss(4, 1);
    nfu.BeforeAccess();
    AgedValue(MSB, true);
    assert nfu.pages[0] == LoadedPage(0, 0, 0xC000, 1);
    assert nfu.pages[1] == LoadedPage(1, 4, 0xC000, 2);
    assert nfu.IsFull();
    victimIndex := nfu.SelectVictim();
    oldVpn, oldBitstring := nfu.ReuseSlot(victimIndex, 8);
  }
}
