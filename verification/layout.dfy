/**
 * How the page table splits a 32-bit virtual address, as functions of the
 * configured level widths (root level first).
 *
 * Level `i` uses `levelBits[i]` bits. The offset takes the low
 * `32 - Sum(levelBits)` bits, the last level sits directly above it and each
 * level sits directly above the next one, so the first level reaches bit 31.
 * These functions are what `initFromLevelBits` stores in the table, and the
 * lemmas are the properties of the split that the rest of the model uses.
 */
module Layout {
  import opened Bits
  import opened Radix

  /** Level widths the simulator runs with: at least one level, each of at
      least one bit, at most 28 bits in all. */
  predicate WidthsOk(levelBits: seq<int>)
  {
    && |levelBits| >= 1
    && (forall i | 0 <= i < |levelBits| :: levelBits[i] >= 1)
    && Sum(levelBits) <= 28
  }

  /** `offsetBits`: the bits left for the page offset. */
  function OffsetBitsOf(levelBits: seq<nat>): (ob: nat)
    requires WidthsOk(levelBits)
    ensures 4 <= ob <= 31
  {
    SumAtLeast(levelBits);
    32 - Sum(levelBits)
  }

  /** `offsetMask`: the low `offsetBits` bits. */
  function OffsetMaskOf(levelBits: seq<nat>): nat
    requires WidthsOk(levelBits)
  {
    Pow2(OffsetBitsOf(levelBits)) - 1
  }

  /** `pageSizeBytes()`. */
  function PageSizeOf(levelBits: seq<nat>): nat
    requires WidthsOk(levelBits)
  {
    Pow2(OffsetBitsOf(levelBits))
  }

  /** `shifts[i]`: the offset width plus the widths of the levels below `i`. */
  function ShiftOf(levelBits: seq<nat>, i: int): nat
    requires WidthsOk(levelBits) && 0 <= i < |levelBits|
  {
    OffsetBitsOf(levelBits) + Sum(levelBits[i + 1..])
  }

  /** `entryCount[i]`: `1 << levelBits[i]`. */
  function EntryCountOf(levelBits: seq<nat>, i: int): nat
    requires WidthsOk(levelBits) && 0 <= i < |levelBits|
  {
    Pow2(levelBits[i])
  }

  /** `bitmasks[i]`: `((1 << levelBits[i]) - 1) << shifts[i]`. */
  function MaskOf(levelBits: seq<nat>, i: int): nat
    requires WidthsOk(levelBits) && 0 <= i < |levelBits|
  {
    MulAtLeast(Pow2(levelBits[i]) - 1, Pow2(ShiftOf(levelBits, i)));
    (Pow2(levelBits[i]) - 1) * Pow2(ShiftOf(levelBits, i))
  }

  /** The virtual page number `va >> offsetBits`. */
  function VpnOf(levelBits: seq<nat>, va: Word): nat
    requires WidthsOk(levelBits)
  {
    Shr(va, OffsetBitsOf(levelBits))
  }

  /** The index at level `i`: field `i` of the address, shifted down. */
  function PieceOf(levelBits: seq<nat>, va: Word, i: int): nat
    requires WidthsOk(levelBits) && 0 <= i < |levelBits|
  {
    Shr(va, ShiftOf(levelBits, i)) % EntryCountOf(levelBits, i)
  }

  /** The indices of all levels: the digits of the page number. */
  function PathOf(levelBits: seq<nat>, va: Word): (path: seq<nat>)
    requires WidthsOk(levelBits)
    ensures |path| == |levelBits|
  {
    Digits(levelBits, VpnOf(levelBits, va))
  }

  /** The index path of page number `vpn`. */
  function VpnPath(levelBits: seq<nat>, vpn: nat): (path: seq<nat>)
    requires WidthsOk(levelBits)
    ensures |path| == |levelBits|
  {
    Digits(levelBits, vpn)
  }

  /** The page number whose index path is `path`. */
  function PathVpn(levelBits: seq<nat>, path: seq<nat>): nat
    requires WidthsOk(levelBits) && |path| == |levelBits|
  {
    Undigits(levelBits, path)
  }

  /** Page numbers that fit above the offset. */
  predicate VpnInRange(levelBits: seq<nat>, vpn: int)
    requires WidthsOk(levelBits)
  {
    0 <= vpn < Pow2(Sum(levelBits))
  }

  /** `(uint32_t(pfn) << offsetBits) | (va & offsetMask)`; it fits in 32
      bits (`PhysicalAddressFits`). */
  function PhysicalAddress(levelBits: seq<nat>, pfn: nat, va: Word): (pa: nat)
    requires WidthsOk(levelBits)
    ensures pa == pfn % Pow2(32 - OffsetBitsOf(levelBits)) * PageSizeOf(levelBits) + va % PageSizeOf(levelBits)
    ensures pa < WORD
  {
    PhysicalAddressFits(levelBits, pfn, va);
    Or(Shl32(pfn, OffsetBitsOf(levelBits)), And(va, OffsetMaskOf(levelBits)))
  }

  // ---------------------------------------------------------------------
  // Widths and shifts
  // ---------------------------------------------------------------------

  lemma {:induction false} SumAtLeast(ws: seq<nat>)
    requires forall i | 0 <= i < |ws| :: ws[i] >= 1
    ensures Sum(ws) >= |ws|
  {
    if |ws| > 0 {
      SumAtLeast(ws[..|ws| - 1]);
    }
  }

  /** The last level sits on the offset and each level on the next one. */
  lemma ShiftRecurrence(levelBits: seq<nat>, i: int)
    requires WidthsOk(levelBits) && 0 <= i < |levelBits|
    ensures i == |levelBits| - 1 ==> ShiftOf(levelBits, i) == OffsetBitsOf(levelBits)
    ensures i < |levelBits| - 1 ==> ShiftOf(levelBits, i) == ShiftOf(levelBits, i + 1) + levelBits[i + 1]
  {
    if i < |levelBits| - 1 {
      assert levelBits[i + 1..] == [levelBits[i + 1]] + levelBits[i + 2..];
      SumCons(levelBits[i + 1], levelBits[i + 2..]);
    } else {
      assert levelBits[i + 1..] == [];
    }
  }

  /** Field `i` ends at bit 31 or below, and the root field at bit 31. */
  lemma FieldTop(levelBits: seq<nat>, i: int)
    requires WidthsOk(levelBits) && 0 <= i < |levelBits|
    ensures OffsetBitsOf(levelBits) <= ShiftOf(levelBits, i)
    ensures ShiftOf(levelBits, i) + levelBits[i] <= 32
    ensures i == 0 ==> ShiftOf(levelBits, i) + levelBits[i] == 32
  {
    SumSplit(levelBits, i);
    assert levelBits[i..] == [levelBits[i]] + levelBits[i + 1..];
    SumCons(levelBits[i], levelBits[i + 1..]);
    assert levelBits[..0] == [] && levelBits[0..] == levelBits;
  }

  /** A lower level's field lies entirely below a higher level's field. */
  lemma FieldBelow(levelBits: seq<nat>, i: int, j: int)
    requires WidthsOk(levelBits) && 0 <= i < j < |levelBits|
    ensures ShiftOf(levelBits, j) + levelBits[j] <= ShiftOf(levelBits, i)
  {
    var rest := levelBits[i + 1..];
    SumSplit(rest, j - i - 1);
    assert rest[j - i - 1..] == [levelBits[j]] + levelBits[j + 1..];
    SumCons(levelBits[j], levelBits[j + 1..]);
  }

  /** `1u << offsetBits` and `(1u << offsetBits) - 1u` do not wrap. */
  lemma OffsetShifts(levelBits: seq<nat>)
    requires WidthsOk(levelBits)
    ensures Shl32(1, OffsetBitsOf(levelBits)) == PageSizeOf(levelBits)
    ensures Shl32(1, OffsetBitsOf(levelBits)) - 1 == OffsetMaskOf(levelBits)
  {
    ShlNoWrap(1, OffsetBitsOf(levelBits));
  }

  /** `1u << levelBits[i]` and `((1u << levelBits[i]) - 1u) << shifts[i]`
      do not wrap: they are the entry count and the mask of level `i`. */
  lemma LevelShifts(levelBits: seq<nat>, i: int)
    requires WidthsOk(levelBits) && 0 <= i < |levelBits|
    ensures Shl32(1, levelBits[i]) == EntryCountOf(levelBits, i)
    ensures Shl32(Shl32(1, levelBits[i]) - 1, ShiftOf(levelBits, i)) == MaskOf(levelBits, i)
  {
    FieldTop(levelBits, i);
    Pow2Mono(levelBits[i], 32 - ShiftOf(levelBits, i));
    ShlNoWrap(1, levelBits[i]);
    ShlNoWrap(Pow2(levelBits[i]) - 1, ShiftOf(levelBits, i));
  }

  // ---------------------------------------------------------------------
  // Masks
  // ---------------------------------------------------------------------

  /** `bitmasks[i]` holds exactly the bits of field `i`. */
  lemma MaskBits(levelBits: seq<nat>, i: int, k: nat)
    requires WidthsOk(levelBits) && 0 <= i < |levelBits|
    ensures Bit(MaskOf(levelBits, i), k) <==> ShiftOf(levelBits, i) <= k < ShiftOf(levelBits, i) + levelBits[i]
  {
    MaskBit(levelBits[i], ShiftOf(levelBits, i), k);
  }

  /** `offsetMask` holds exactly the bits below `offsetBits`. */
  lemma OffsetMaskBits(levelBits: seq<nat>, k: nat)
    requires WidthsOk(levelBits)
    ensures Bit(OffsetMaskOf(levelBits), k) <==> k < OffsetBitsOf(levelBits)
  {
    LowOnesBit(OffsetBitsOf(levelBits), k);
  }

  /** No bit is in two level masks, or in a level mask and the offset mask. */
  lemma MasksDisjoint(levelBits: seq<nat>, i: int, j: int, k: nat)
    requires WidthsOk(levelBits) && 0 <= i < |levelBits| && 0 <= j < |levelBits|
    ensures i != j ==> !(Bit(MaskOf(levelBits, i), k) && Bit(MaskOf(levelBits, j), k))
    ensures !(Bit(MaskOf(levelBits, i), k) && Bit(OffsetMaskOf(levelBits), k))
  {
    MaskBits(levelBits, i, k);
    MaskBits(levelBits, j, k);
    OffsetMaskBits(levelBits, k);
    FieldTop(levelBits, i);
    if i < j {
      FieldBelow(levelBits, i, j);
    } else if j < i {
      FieldBelow(levelBits, j, i);
    }
  }

  /** Every bit of a 32-bit word is in the offset mask or in a level mask,
      and no mask has a bit above bit 31. */
  lemma MasksCover(levelBits: seq<nat>, k: nat)
    requires WidthsOk(levelBits)
    ensures k < 32 <==> Bit(OffsetMaskOf(levelBits), k) || exists i | 0 <= i < |levelBits| :: Bit(MaskOf(levelBits, i), k)
  {
    OffsetMaskBits(levelBits, k);
    if OffsetBitsOf(levelBits) <= k < 32 {
      var i := FieldHolding(levelBits, k, |levelBits| - 1);
      MaskBits(levelBits, i, k);
    }
    forall i | 0 <= i < |levelBits|
      ensures Bit(MaskOf(levelBits, i), k) ==> k < 32
    {
      MaskBits(levelBits, i, k);
      FieldTop(levelBits, i);
    }
  }

  /** The level at or above `j` whose field holds bit `k`. */
  lemma {:induction false} FieldHolding(levelBits: seq<nat>, k: nat, j: int) returns (i: int)
    requires WidthsOk(levelBits) && 0 <= j < |levelBits|
    requires ShiftOf(levelBits, j) <= k < 32
    ensures 0 <= i <= j && ShiftOf(levelBits, i) <= k < ShiftOf(levelBits, i) + levelBits[i]
    decreases j
  {
    FieldTop(levelBits, j);
    if k < ShiftOf(levelBits, j) + levelBits[j] {
      i := j;
    } else {
      ShiftRecurrence(levelBits, j - 1);
      i := FieldHolding(levelBits, k, j - 1);
    }
  }

  // ---------------------------------------------------------------------
  // Address fields
  // ---------------------------------------------------------------------

  /** `(va & bitmasks[i]) >> shifts[i]` is the index at level `i`. */
  lemma MaskedPiece(levelBits: seq<nat>, va: Word, i: int)
    requires WidthsOk(levelBits) && 0 <= i < |levelBits|
    ensures Shr(And(va, MaskOf(levelBits, i)), ShiftOf(levelBits, i)) == PieceOf(levelBits, va, i)
  {
    var s := ShiftOf(levelBits, i);
    var f := Shr(va, s) % Pow2(levelBits[i]);
    AndFieldMask(va, levelBits[i], s);
    ShrDiv(f * Pow2(s), s);
    DivModUnique(f * Pow2(s), Pow2(s), f, 0);
  }

  /** `va & offsetMask` is the offset `va % pageSize`, below the page size. */
  lemma MaskedOffset(levelBits: seq<nat>, va: Word)
    requires WidthsOk(levelBits)
    ensures And(va, OffsetMaskOf(levelBits)) == va % PageSizeOf(levelBits)
    ensures And(va, OffsetMaskOf(levelBits)) < PageSizeOf(levelBits)
  {
    AndLowMask(va, OffsetBitsOf(levelBits));
  }

  /** The path is the sequence of level indices. */
  lemma PathPieces(levelBits: seq<nat>, va: Word, i: int)
    requires WidthsOk(levelBits) && 0 <= i < |levelBits|
    ensures PathOf(levelBits, va)[i] == PieceOf(levelBits, va, i)
  {
    DigitAt(levelBits, VpnOf(levelBits, va), i);
    ShrShr(va, OffsetBitsOf(levelBits), Sum(levelBits[i + 1..]));
  }

  /** The page number of a 32-bit address fits above the offset. */
  lemma VpnBound(levelBits: seq<nat>, va: Word)
    requires WidthsOk(levelBits)
    ensures VpnInRange(levelBits, VpnOf(levelBits, va))
  {
    var ob := OffsetBitsOf(levelBits);
    ShrDiv(va, ob);
    Pow2Add(Sum(levelBits), ob);
    Pow2Word();
    DivLess(va, Pow2(Sum(levelBits)), Pow2(ob));
  }

  /** Two addresses take the same path exactly when they are on the same page. */
  lemma SamePathSamePage(levelBits: seq<nat>, va: Word, vb: Word)
    requires WidthsOk(levelBits)
    ensures PathOf(levelBits, va) == PathOf(levelBits, vb) <==> VpnOf(levelBits, va) == VpnOf(levelBits, vb)
  {
    VpnBound(levelBits, va);
    VpnBound(levelBits, vb);
    SameDigits(levelBits, VpnOf(levelBits, va), VpnOf(levelBits, vb));
  }

  /** Paths and page numbers in range correspond one to one. */
  lemma PathVpnRoundTrip(levelBits: seq<nat>, vpn: nat, path: seq<nat>)
    requires WidthsOk(levelBits)
    ensures VpnInRange(levelBits, vpn) ==> PathVpn(levelBits, VpnPath(levelBits, vpn)) == vpn
    ensures Fits(levelBits, path) ==> VpnPath(levelBits, PathVpn(levelBits, path)) == path
    ensures Fits(levelBits, path) ==> VpnInRange(levelBits, PathVpn(levelBits, path))
    ensures Fits(levelBits, VpnPath(levelBits, vpn))
  {
    if VpnInRange(levelBits, vpn) {
      UndigitsOfDigits(levelBits, vpn);
    }
    if Fits(levelBits, path) {
      DigitsOfUndigits(levelBits, path);
      UndigitsBound(levelBits, path);
    }
    DigitsFit(levelBits, vpn);
  }

  /** The address rebuilt from the level indices and the offset is the
      original address. */
  lemma AddressRoundTrip(levelBits: seq<nat>, va: Word)
    requires WidthsOk(levelBits)
    ensures Or(PathVpn(levelBits, PathOf(levelBits, va)) * PageSizeOf(levelBits), And(va, OffsetMaskOf(levelBits))) == va
  {
    var ob := OffsetBitsOf(levelBits);
    VpnBound(levelBits, va);
    UndigitsOfDigits(levelBits, VpnOf(levelBits, va));
    MaskedOffset(levelBits, va);
    OrDisjoint(VpnOf(levelBits, va), va % Pow2(ob), ob);
    ShrDiv(va, ob);
    DivMod(va, Pow2(ob));
  }

  /** `vpn << offsetBits` is an address on page `vpn`. */
  lemma PageAddress(levelBits: seq<nat>, vpn: nat)
    requires WidthsOk(levelBits) && VpnInRange(levelBits, vpn)
    ensures VpnOf(levelBits, Shl32(vpn, OffsetBitsOf(levelBits))) == vpn
    ensures PathOf(levelBits, Shl32(vpn, OffsetBitsOf(levelBits))) == VpnPath(levelBits, vpn)
  {
    var ob := OffsetBitsOf(levelBits);
    Shl32Low(vpn, ob);
    assert 32 - ob == Sum(levelBits);
    DivModUnique(vpn, Pow2(32 - ob), 0, vpn);
    ShrDiv(vpn * Pow2(ob), ob);
    DivModUnique(vpn * Pow2(ob), Pow2(ob), vpn, 0);
  }

  lemma PhysicalAddressFits(levelBits: seq<nat>, pfn: nat, va: Word)
    requires WidthsOk(levelBits)
    ensures Or(Shl32(pfn, OffsetBitsOf(levelBits)), And(va, OffsetMaskOf(levelBits)))
         == pfn % Pow2(32 - OffsetBitsOf(levelBits)) * PageSizeOf(levelBits) + va % PageSizeOf(levelBits)
    ensures Or(Shl32(pfn, OffsetBitsOf(levelBits)), And(va, OffsetMaskOf(levelBits))) < WORD
  {
    var ob := OffsetBitsOf(levelBits);
    var f := pfn % Pow2(32 - ob);
    Shl32Low(pfn, ob);
    MaskedOffset(levelBits, va);
    OrDisjoint(f, va % Pow2(ob), ob);
    MulLess(f, Pow2(32 - ob), Pow2(ob));
    WordSplit(ob);
  }

  /** The physical address keeps the page offset and carries the frame
      number, truncated to the bits above the offset. */
  lemma PhysicalAddressFields(levelBits: seq<nat>, pfn: nat, va: Word)
    requires WidthsOk(levelBits)
    ensures PhysicalAddress(levelBits, pfn, va) % PageSizeOf(levelBits) == va % PageSizeOf(levelBits)
    ensures Shr(PhysicalAddress(levelBits, pfn, va), OffsetBitsOf(levelBits)) == pfn % Pow2(32 - OffsetBitsOf(levelBits))
  {
    var ob := OffsetBitsOf(levelBits);
    var pa := PhysicalAddress(levelBits, pfn, va);
    PhysicalAddressFits(levelBits, pfn, va);
    DivModUnique(pa, Pow2(ob), pfn % Pow2(32 - ob), va % Pow2(ob));
    ShrDiv(pa, ob);
  }
}
