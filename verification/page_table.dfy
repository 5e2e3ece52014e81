/**
 * The multi-level page table (`struct PageTable`): the per-level geometry
 * computed from the level widths, and a tree of `Level` nodes that is
 * built lazily as mappings are inserted.
 *
 * The tree is described by ghost fields. `nodesAt` maps the index path of
 * every node (the root's is `[]`) to the node; `levelPath`, `childrenPath`
 * and `mappingsPath` map every node and every allocated array back to the
 * path of the node that owns it, which keeps them apart; `slots` maps the
 * full index path of every valid leaf entry to its frame number; `Repr`
 * holds every node and array of the tree.
 */
module PageTables {
  import opened Bits
  import opened Radix
  import opened Layout
  import opened Levels
  import opened Wrappers

  /** The path without its last index. */
  function Parent(p: seq<nat>): seq<nat>
    requires |p| > 0
  {
    p[..|p| - 1]
  }

  /** The last index of a path. */
  function Last(p: seq<nat>): nat
    requires |p| > 0
  {
    p[|p| - 1]
  }

  /** Paths one index below different nodes differ. */
  lemma ChildPathsDiffer(r: seq<nat>, k: nat, p: seq<nat>, i: nat)
    ensures r + [k] == p + [i] ==> r == p && k == i
  {
    if r + [k] == p + [i] {
      assert r == (r + [k])[..|r|] && p == (p + [i])[..|p|];
    }
  }

  /** `after` keeps every node of `before`, and every node it adds sits on
      a proper prefix of `path`. */
  ghost predicate NodesGrowAlong(before: map<seq<nat>, Level>, after: map<seq<nat>, Level>, path: seq<nat>)
  {
    && (forall r | r in before :: r in after && after[r] == before[r])
    && (forall r | r in after && r !in before :: r < path)
  }

  /** `after` keeps every array of `before`, and every array it adds
      belongs to a node on a proper prefix of `path`. */
  ghost predicate ArraysGrowAlong<A>(before: map<A, seq<nat>>, after: map<A, seq<nat>>, path: seq<nat>)
  {
    && (forall a | a in before :: a in after && after[a] == before[a])
    && (forall a | a in after && a !in before :: after[a] < path)
  }

  /** One descent step from the node at `path` to its child `x` on the way
      to `full` stays on `full`, and growth along the step's path is growth
      along `full`: every proper prefix of `path + [x, 0]` is one of `full`. */
  lemma GrowChain(a: map<seq<nat>, Level>, b: map<seq<nat>, Level>, c: map<seq<nat>, Level>,
                  ca: map<array<Level?>, seq<nat>>, cb: map<array<Level?>, seq<nat>>, cc: map<array<Level?>, seq<nat>>,
                  path: seq<nat>, x: nat, full: seq<nat>)
    requires |path| + 1 < |full| && path == full[..|path|] && x == full[|path|]
    requires NodesGrowAlong(a, b, full) && NodesGrowAlong(b, c, path + [x, 0])
    requires ArraysGrowAlong(ca, cb, full) && ArraysGrowAlong(cb, cc, path + [x])
    ensures path + [x] == full[..|path| + 1]
    ensures NodesGrowAlong(a, c, full) && ArraysGrowAlong(ca, cc, full)
  {
    var q := path + [x];
    assert q == full[..|path| + 1];
    forall r | r in c && r !in a
      ensures r < full
    {
      if r !in b {
        assert r == q[..|r|] by { assert r == (path + [x, 0])[..|r|]; }
      }
    }
  }

  /** The frame of `va`'s page in a table whose valid entries are `slots`. */
  function TranslateIn(levelBits: seq<nat>, slots: map<seq<nat>, int>, va: Word): Option<int>
    requires WidthsOk(levelBits)
  {
    if PathOf(levelBits, va) in slots then Some(slots[PathOf(levelBits, va)]) else None
  }

  /** After storing `frame` at `va`'s path, every address on `va`'s page
      translates to `frame` and every other address as before. */
  lemma InsertedTranslate(levelBits: seq<nat>, slots: map<seq<nat>, int>, va: Word, frame: int, vb: Word)
    requires WidthsOk(levelBits)
    ensures TranslateIn(levelBits, slots[PathOf(levelBits, va) := frame], vb)
         == if VpnOf(levelBits, vb) == VpnOf(levelBits, va) then Some(frame) else TranslateIn(levelBits, slots, vb)
  {
    SamePathSamePage(levelBits, va, vb);
  }

  /** After dropping the entry of page `vpn`, addresses on that page
      translate to nothing and every other address as before. */
  lemma InvalidatedTranslate(levelBits: seq<nat>, slots: map<seq<nat>, int>, vpn: nat, vb: Word)
    requires WidthsOk(levelBits) && VpnInRange(levelBits, vpn)
    ensures TranslateIn(levelBits, slots - {VpnPath(levelBits, vpn)}, vb)
         == if VpnOf(levelBits, vb) == vpn then None else TranslateIn(levelBits, slots, vb)
  {
    VpnBound(levelBits, vb);
    SameDigits(levelBits, VpnOf(levelBits, vb), vpn);
  }

  /** `extractVPNFromVirtualAddress`: `(va & mask) >> shift`. */
  function ExtractVpnFromVirtualAddress(va: Word, mask: nat, shift: nat): nat
  {
    Shr(And(va, mask), shift)
  }

  /** With a level's mask and shift, the extracted value is that level's
      index of the address. */
  lemma ExtractIsPiece(levelBits: seq<nat>, va: Word, i: int)
    requires WidthsOk(levelBits) && 0 <= i < |levelBits|
    ensures ExtractVpnFromVirtualAddress(va, MaskOf(levelBits, i), ShiftOf(levelBits, i)) == PathOf(levelBits, va)[i]
    ensures ExtractVpnFromVirtualAddress(va, MaskOf(levelBits, i), ShiftOf(levelBits, i)) < EntryCountOf(levelBits, i)
  {
    MaskedPiece(levelBits, va, i);
    PathPieces(levelBits, va, i);
  }

  class PageTable {
    var numLevels: int
    var entryCount: seq<nat>
    var bitmasks: seq<nat>
    var shifts: seq<nat>
    var offsetBits: nat
    var offsetMask: nat
    var rootLevel: Level?

    ghost var levelBits: seq<nat>
    ghost var nodesAt: map<seq<nat>, Level>
    ghost var levelPath: map<Level, seq<nat>>
    ghost var childrenPath: map<array<Level?>, seq<nat>>
    ghost var mappingsPath: map<array<Mapping>, seq<nat>>
    ghost var slots: map<seq<nat>, int>
    ghost var Repr: set<object>

    /** The per-level vectors agree with the layout of `levelBits`. */
    ghost predicate Geometry()
      reads this`numLevels, this`levelBits, this`entryCount, this`bitmasks, this`shifts
      reads this`offsetBits, this`offsetMask
    {
      && numLevels == |levelBits| == |entryCount| == |bitmasks| == |shifts|
      && (numLevels > 0 ==>
          && WidthsOk(levelBits)
          && offsetBits == OffsetBitsOf(levelBits)
          && offsetMask == OffsetMaskOf(levelBits)
          && (forall i | 0 <= i < numLevels ::
                && entryCount[i] == EntryCountOf(levelBits, i)
                && bitmasks[i] == MaskOf(levelBits, i)
                && shifts[i] == ShiftOf(levelBits, i)))
    }

    /** The node at path `p` sits at depth `|p|` with its level's shape and
        its parent has a child array. Its non-null children are exactly the
        nodes one index further down, and its valid entries are exactly the
        slots one index further down, with their frames. */
    ghost predicate NodeOk(p: seq<nat>)
      reads this, Repr
      requires p in nodesAt
    {
      var n := nodesAt[p];
      && n in Repr && |p| < numLevels == |entryCount|
      && n in levelPath && levelPath[n] == p
      && n.depth == |p| && n.isLeaf == (|p| + 1 == numLevels) && n.entryCount == entryCount[|p|]
      && (p != [] ==>
          && Parent(p) in nodesAt && Last(p) < entryCount[|p| - 1]
          && nodesAt[Parent(p)] in Repr && nodesAt[Parent(p)].children != null)
      && (n.children != null ==>
          && !n.isLeaf && n.children in Repr
          && n.children in childrenPath && childrenPath[n.children] == p
          && n.children.Length == n.entryCount
          && forall k {:trigger n.children[k]} | 0 <= k < n.children.Length ::
               && (n.children[k] != null <==> p + [k] in nodesAt)
               && (n.children[k] != null ==> nodesAt[p + [k]] == n.children[k]))
      && (n.mappings != null ==>
          && n.isLeaf && n.mappings in Repr
          && n.mappings in mappingsPath && mappingsPath[n.mappings] == p
          && n.mappings.Length == n.entryCount
          && forall k {:trigger n.mappings[k]} | 0 <= k < n.mappings.Length ::
               && (n.mappings[k].valid <==> p + [k] in slots)
               && (n.mappings[k].valid ==> slots[p + [k]] == n.mappings[k].pfn))
    }

    /** A slot is a full path whose leaf node has a mapping array. */
    ghost predicate SlotOk(q: seq<nat>)
      reads this, Repr
    {
      && 0 < |q| == numLevels == |entryCount|
      && Parent(q) in nodesAt && Last(q) < entryCount[|q| - 1]
      && nodesAt[Parent(q)] in Repr && nodesAt[Parent(q)].mappings != null
    }

    ghost predicate Valid()
      reads this, Repr
    {
      && Geometry() && this !in Repr
      && (rootLevel != null ==> numLevels > 0 && [] in nodesAt && nodesAt[[]] == rootLevel)
      && (rootLevel == null ==> nodesAt == map[] && slots == map[])
      && (forall p {:trigger NodeOk(p)} | p in nodesAt :: NodeOk(p))
      && (forall q {:trigger SlotOk(q)} | q in slots :: SlotOk(q))
    }

    /** The entry `slot` refers to is entry `Last(q)` of the mapping array
        of the leaf at `Parent(q)`, valid or not. */
    ghost predicate Addresses(slot: SlotRef, q: seq<nat>)
      reads this, Repr
    {
      && 0 < |q| == numLevels == |entryCount| && Parent(q) in nodesAt && Last(q) < entryCount[|q| - 1]
      && nodesAt[Parent(q)] in Repr && nodesAt[Parent(q)].mappings == slot.table && slot.index == Last(q)
    }

    /** The slot `slot` refers to is the valid entry at full path `q`. */
    ghost predicate Locates(slot: SlotRef, q: seq<nat>)
      reads this, Repr
    {
      q in slots && Addresses(slot, q)
    }

    /** The frame `va` is mapped to, if its page has a valid entry. */
    ghost function Translate(va: Word): Option<int>
      reads this
      requires Geometry()
    {
      if numLevels > 0 then TranslateIn(levelBits, slots, va) else None
    }

    /** A default-constructed table: no levels and no root. */
    constructor ()
      ensures Valid()
      ensures numLevels == 0 && rootLevel == null && slots == map[] && Repr == {}
      ensures offsetBits == 0 && offsetMask == 0 && entryCount == [] && bitmasks == [] && shifts == []
    {
      numLevels := 0;
      entryCount := [];
      bitmasks := [];
      shifts := [];
      offsetBits := 0;
      offsetMask := 0;
      rootLevel := null;
      levelBits := [];
      nodesAt := map[];
      levelPath := map[];
      childrenPath := map[];
      mappingsPath := map[];
      slots := map[];
      Repr := {};
    }

    /** `pageSizeBytes`: `1u << offsetBits`. */
    function PageSizeBytes(): (size: nat)
      reads this
      requires Geometry() && numLevels > 0
      ensures size == PageSizeOf(levelBits)
    {
      OffsetShifts(levelBits);
      Shl32(1, offsetBits)
    }

    /** `getVPNPiece`: `(vaddr & bitmasks[level]) >> shifts[level]`, the
        index of `va` at level `level`. */
    function GetVPNPiece(va: Word, level: int): (piece: nat)
      reads this
      requires Geometry() && 0 <= level < numLevels
      ensures piece == PieceOf(levelBits, va, level) == PathOf(levelBits, va)[level]
      ensures piece < entryCount[level]
    {
      MaskedPiece(levelBits, va, level);
      PathPieces(levelBits, va, level);
      Shr(And(va, bitmasks[level]), shifts[level])
    }

    /** `getOffset`: `vaddr & offsetMask`, the offset of `va` in its page. */
    function GetOffset(va: Word): (offset: nat)
      reads this
      requires Geometry() && numLevels > 0
      ensures offset == va % PageSizeOf(levelBits) && offset < PageSizeOf(levelBits)
    {
      MaskedOffset(levelBits, va);
      And(va, offsetMask)
    }

    /** `initFromLevelBits` in the version that does not allocate a root:
        sizes the vectors, then computes the offset width and mask, the
        shifts from the last level up, and the entry counts and masks. */
    method InitFromLevelBitsNoRoot(bits: seq<int>)
      requires WidthsOk(bits)
      modifies this`numLevels, this`entryCount, this`bitmasks, this`shifts
      modifies this`offsetBits, this`offsetMask, this`levelBits
      ensures Geometry() && levelBits == bits && numLevels == |bits|
    {
      var widths: seq<nat> := bits;
      var n := |widths|;
      // The vectors are resized to numLevels; every element is overwritten below.
      var counts: seq<nat> := seq(n, _ => 0);
      var masks: seq<nat> := seq(n, _ => 0);
      var sh: seq<nat> := seq(n, _ => 0);

      var total := 0;
      var j := 0;
      while j < n
        modifies {}
        invariant 0 <= j <= n
        invariant total == Sum(widths[..j])
      {
        assert widths[..j + 1][..j] == widths[..j];
        total := total + widths[j];
        j := j + 1;
      }
      assert widths[..n] == widths;
      SumAtLeast(widths);

      var ob := 32 - total;
      OffsetShifts(widths);
      var om := Shl32(1, ob) - 1;

      var i := n - 1;
      while i >= 0
        modifies {}
        invariant -1 <= i < n == |sh|
        invariant forall k | i < k < n :: sh[k] == ShiftOf(widths, k)
      {
        ShiftRecurrence(widths, i);
        if i == n - 1 {
          sh := sh[i := ob];
        } else {
          sh := sh[i := sh[i + 1] + widths[i + 1]];
        }
        i := i - 1;
      }

      i := 0;
      while i < n
        modifies {}
        invariant 0 <= i <= n == |counts| == |masks|
        invariant forall k | 0 <= k < i :: counts[k] == EntryCountOf(widths, k) && masks[k] == MaskOf(widths, k)
      {
        LevelShifts(widths, i);
        counts := counts[i := Shl32(1, widths[i])];
        masks := masks[i := Shl32(Shl32(1, widths[i]) - 1, sh[i])];
        i := i + 1;
      }

      numLevels, entryCount, bitmasks, shifts := n, counts, masks, sh;
      offsetBits, offsetMask := ob, om;
      levelBits := widths;
    }

    /** `initFromLevelBits`: the geometry as above, then a root node with no
        arrays; the table maps nothing. */
    method InitFromLevelBits(bits: seq<int>)
      requires WidthsOk(bits)
      modifies this
      ensures Valid() && levelBits == bits && numLevels == |bits|
      ensures rootLevel != null && fresh(Repr)
      ensures nodesAt == map[[] := rootLevel] && childrenPath == map[] && mappingsPath == map[]
      ensures slots == map[]
    {
      InitFromLevelBitsNoRoot(bits);
      rootLevel := new Level(entryCount[0], numLevels == 1, 0);
      nodesAt := map[[] := rootLevel];
      levelPath := map[rootLevel := []];
      childrenPath := map[];
      mappingsPath := map[];
      slots := map[];
      Repr := {rootLevel};
      RootOnlyValid();
    }

    /** A table whose only node is a fresh root with no arrays is valid. */
    lemma RootOnlyValid()
      requires Geometry() && numLevels > 0 && rootLevel != null
      requires rootLevel.entryCount == entryCount[0] && rootLevel.isLeaf == (numLevels == 1) && rootLevel.depth == 0
      requires rootLevel.children == null && rootLevel.mappings == null
      requires nodesAt == map[[] := rootLevel] && levelPath == map[rootLevel := []] && Repr == {rootLevel}
      requires childrenPath == map[] && mappingsPath == map[] && slots == map[]
      ensures Valid()
    {
      assert NodeOk([]);
    }

    /** Every prefix of a node's path is a node's path. */
    lemma {:induction false} PrefixIn(p: seq<nat>, d: int)
      requires Valid() && p in nodesAt && 0 <= d <= |p|
      ensures p[..d] in nodesAt
      decreases |p| - d
    {
      if d < |p| {
        assert NodeOk(p);
        PrefixIn(Parent(p), d);
        assert Parent(p)[..d] == p[..d];
      } else {
        assert p[..d] == p;
      }
    }

    /** No valid entry lies below a missing node. */
    lemma NoSlotBelow(q: seq<nat>, d: int)
      requires Valid() && 0 <= d < |q| && q[..d] !in nodesAt
      ensures q !in slots
    {
      if q in slots {
        assert SlotOk(q) && Parent(q)[..d] == q[..d];
        PrefixIn(Parent(q), d);
      }
    }

    /** The path of a valid entry is a numeral of the level widths: every
        index is below its level's entry count. */
    lemma SlotFits(q: seq<nat>)
      requires Valid() && q in slots
      ensures Fits(levelBits, q)
    {
      assert SlotOk(q);
      forall i | 0 <= i < |levelBits|
        ensures q[i] < Pow2(levelBits[i])
      {
        var c := q[..i + 1];
        PrefixIn(Parent(q), i);
        assert Parent(q)[..i] == q[..i] == Parent(c) && Last(c) == q[i];
        if i + 1 < |q| {
          PrefixIn(Parent(q), i + 1);
          assert Parent(q)[..i + 1] == c;
          assert NodeOk(c);
        }
      }
    }

    /** What the invariant says about the node at `p` itself. */
    lemma NodeShape(p: seq<nat>)
      requires Valid() && p in nodesAt
      ensures nodesAt[p] in Repr && |p| < numLevels == |entryCount| && nodesAt[p].depth == |p|
      ensures nodesAt[p].entryCount == entryCount[|p|] && nodesAt[p].isLeaf == (|p| + 1 == numLevels)
      ensures nodesAt[p].children != null ==>
        nodesAt[p].children in Repr && nodesAt[p].children.Length == nodesAt[p].entryCount
      ensures nodesAt[p].mappings != null ==>
        nodesAt[p].mappings in Repr && nodesAt[p].mappings.Length == nodesAt[p].entryCount
      ensures p != [] ==> Parent(p) in nodesAt && Last(p) < entryCount[|p| - 1]
    {
      assert NodeOk(p);
    }

    /** What the invariant says about the node at `p` and its child
        pointer `index`: the pointer is set exactly when the path
        `p + [index]` is in the table, and then points to that node. */
    lemma NodeLinks(p: seq<nat>, index: nat)
      requires Valid() && p in nodesAt && index < nodesAt[p].entryCount
      ensures nodesAt[p] in Repr && |p| < numLevels && nodesAt[p].depth == |p|
      ensures nodesAt[p].entryCount == entryCount[|p|] && nodesAt[p].isLeaf == (|p| + 1 == numLevels)
      ensures nodesAt[p].children != null ==>
        nodesAt[p].children in Repr && nodesAt[p].children.Length == nodesAt[p].entryCount
      ensures p + [index] in nodesAt <==> nodesAt[p].children != null && nodesAt[p].children[index] != null
      ensures p + [index] in nodesAt ==> nodesAt[p + [index]] == nodesAt[p].children[index]
    {
      assert NodeOk(p);
      if p + [index] in nodesAt {
        assert NodeOk(p + [index]) && Parent(p + [index]) == p;
      }
    }

    /** `searchMappedPfn`: walks from the root along the indices of `va`;
        null if the table has no root, a node on the way is missing, the
        leaf has no mapping array, or the entry is not valid. Otherwise the
        valid entry for `va`'s page. */
    method SearchMappedPfn(va: Word) returns (r: Option<SlotRef>)
      requires Valid()
      ensures r.None? <==> Translate(va).None?
      ensures r.Some? ==>
        && Locates(r.value, PathOf(levelBits, va))
        && r.value.index < r.value.table.Length
        && r.value.table[r.value.index] == Mapping(Translate(va).value, true)
    {
      if rootLevel == null || numLevels <= 0 {
        return None;
      }
      ghost var full := PathOf(levelBits, va);
      ghost var path: seq<nat> := [];
      var currentLevel := rootLevel;
      while !currentLevel.isLeaf
        invariant path in nodesAt && nodesAt[path] == currentLevel
        invariant |path| < numLevels && path == full[..|path|]
        decreases numLevels - |path|
      {
        assert NodeOk(path);
        var piece := GetVPNPiece(va, currentLevel.depth);
        var next := currentLevel.GetChild(piece);
        assert full[..|path| + 1] == path + [piece];
        assert path + [piece] in nodesAt ==> next != null by {
          if path + [piece] in nodesAt {
            assert NodeOk(path + [piece]) && Parent(path + [piece]) == path;
          }
        }
        if next == null {
          NoSlotBelow(full, |path| + 1);
          return None;
        }
        path := path + [piece];
        currentLevel := next;
      }
      assert NodeOk(path);
      var vpnPiece := GetVPNPiece(va, currentLevel.depth);
      assert full == path + [vpnPiece] && Parent(full) == path;
      assert full in slots ==> currentLevel.mappings != null by {
        if full in slots {
          assert SlotOk(full);
        }
      }
      if currentLevel.mappings == null {
        return None;
      }
      var slot := currentLevel.GetMapping(vpnPiece);
      if slot.table[slot.index].valid {
        r := Some(slot);
      } else {
        r := None;
      }
    }

    /** `insertMapForVpn2Pfn`: walks from the root along the indices of
        `va`, creating missing nodes, allocates the leaf's mapping array if
        needed, and stores `frame` as a valid entry. Nothing happens without
        a root. Every other page keeps its mapping. */
    method InsertMapForVpn2Pfn(va: Word, frame: int)
      requires Valid()
      modifies this`nodesAt, this`levelPath, this`childrenPath, this`mappingsPath, this`slots, this`Repr, Repr
      ensures Valid()
      ensures rootLevel == null ==> slots == old(slots)
      ensures rootLevel != null ==> slots == old(slots)[PathOf(levelBits, va) := frame]
      ensures rootLevel == null ==> nodesAt == old(nodesAt) && mappingsPath == old(mappingsPath)
      ensures rootLevel != null ==>
        && NodesGrowAlong(old(nodesAt), nodesAt, PathOf(levelBits, va))
        && ArraysGrowAlong(old(childrenPath), childrenPath, PathOf(levelBits, va))
        && ArraysGrowAlong(old(mappingsPath), mappingsPath, PathOf(levelBits, va))
      ensures fresh(Repr - old(Repr))
    {
      if rootLevel == null || numLevels <= 0 {
        return;
      }
      ghost var full := PathOf(levelBits, va);
      var currentLevel, path := DescendCreating(va);
      NodeShape(path);
      var vpnPiece := GetVPNPiece(va, currentLevel.depth);
      assert path + [vpnPiece] == full[..|path| + 1];
      StoreInLeaf(currentLevel, path, vpnPiece, frame);
    }

    /** The descent of `insertMapForVpn2Pfn`: from the root along the pieces
        of `va`, `ensureChild` at every interior node, down to the leaf on
        `va`'s path. */
    method DescendCreating(va: Word) returns (leaf: Level, ghost path: seq<nat>)
      requires Valid() && rootLevel != null && numLevels > 0
      modifies this`nodesAt, this`levelPath, this`childrenPath, this`Repr, Repr
      ensures Valid() && path in nodesAt && nodesAt[path] == leaf && leaf.isLeaf
      ensures |path| < numLevels && path == PathOf(levelBits, va)[..|path|]
      ensures NodesGrowAlong(old(nodesAt), nodesAt, PathOf(levelBits, va))
      ensures ArraysGrowAlong(old(childrenPath), childrenPath, PathOf(levelBits, va))
      ensures fresh(Repr - old(Repr))
    {
      ghost var full := PathOf(levelBits, va);
      path := [];
      leaf := rootLevel;
      while !leaf.isLeaf
        invariant Valid()
        invariant path in nodesAt && nodesAt[path] == leaf
        invariant |path| < numLevels && path == full[..|path|]
        invariant NodesGrowAlong(old(nodesAt), nodesAt, full)
        invariant ArraysGrowAlong(old(childrenPath), childrenPath, full)
        invariant fresh(Repr - old(Repr))
        decreases numLevels - |path|
      {
        NodeShape(path);
        var vpnPiece := GetVPNPiece(va, leaf.depth);
        var childEntryCount := entryCount[leaf.depth + 1];
        var childIsLeaf := leaf.depth + 1 == numLevels - 1;
        ghost var nodes0, children0 := nodesAt, childrenPath;
        var next := EnsureChildAt(leaf, path, vpnPiece, childEntryCount, childIsLeaf);
        GrowChain(old(nodesAt), nodes0, nodesAt, old(childrenPath), children0, childrenPath, path, vpnPiece, full);
        path := path + [vpnPiece];
        leaf := next;
      }
    }

    /** The leaf part of `insertMapForVpn2Pfn`: allocates the mapping array
        of the leaf at `p` if needed and stores `frame` as a valid entry at
        `vpnPiece`. */
    method StoreInLeaf(leaf: Level, ghost p: seq<nat>, vpnPiece: nat, frame: int)
      requires Valid() && p in nodesAt && nodesAt[p] == leaf && leaf.isLeaf && vpnPiece < leaf.entryCount
      modifies this`mappingsPath, this`slots, this`Repr, leaf, leaf.mappings
      ensures Valid() && slots == old(slots)[p + [vpnPiece] := frame]
      ensures ArraysGrowAlong(old(mappingsPath), mappingsPath, p + [vpnPiece])
      ensures fresh(Repr - old(Repr))
    {
      NodeShape(p);
      ghost var full := p + [vpnPiece];
      assert Parent(full) == p && Last(full) == vpnPiece;
      if leaf.mappings == null {
        AllocateMappingsAt(leaf, p);
      }
      NodeShape(p);
      var mapping := leaf.GetMapping(vpnPiece);
      StoreAt(mapping, full, frame);
    }

    /** One step of the descent in `insertMapForVpn2Pfn`: `ensureChild` on
        the node at path `p`. The child, new or not, is the node at
        `p + [index]`. */
    method EnsureChildAt(node: Level, ghost p: seq<nat>, index: nat, childEntryCount: nat, childIsLeaf: bool)
      returns (child: Level)
      requires Valid() && p in nodesAt && nodesAt[p] == node && !node.isLeaf && index < node.entryCount
      requires |p| + 1 < numLevels && childEntryCount == entryCount[|p| + 1]
      requires childIsLeaf == (|p| + 2 == numLevels)
      modifies this`nodesAt, this`levelPath, this`childrenPath, this`Repr, node, node.children
      ensures Valid()
      ensures p + [index] in nodesAt && nodesAt[p + [index]] == child
      ensures NodesGrowAlong(old(nodesAt), nodesAt, p + [index, 0])
      ensures ArraysGrowAlong(old(childrenPath), childrenPath, p + [index])
      ensures fresh(Repr - old(Repr))
    {
      NodeLinks(p, index);
      ghost var q := p + [index];
      ghost var existed := node.children != null && node.children[index] != null;
      child := node.EnsureChild(index, childEntryCount, childIsLeaf);
      if !existed {
        nodesAt := nodesAt[q := child];
        levelPath := levelPath[child := q];
        childrenPath := childrenPath[node.children := p];
        Repr := Repr + {child, node.children};
      }
      ChildEnsured(node, p, index, child, existed);
    }

    /** The leaf-level allocation in `insertMapForVpn2Pfn`:
        `allocateMappings` on the leaf at path `p`, which has none. */
    method AllocateMappingsAt(leaf: Level, ghost p: seq<nat>)
      requires Valid() && p in nodesAt && nodesAt[p] == leaf && leaf.isLeaf && leaf.mappings == null
      modifies this`mappingsPath, this`Repr, leaf
      ensures Valid() && leaf.mappings != null
      ensures fresh(leaf.mappings) && Repr == old(Repr) + {leaf.mappings}
      ensures leaf.mappings !in old(mappingsPath) && mappingsPath == old(mappingsPath)[leaf.mappings := p]
    {
      assert NodeOk(p);
      leaf.AllocateMappings();
      mappingsPath := mappingsPath[leaf.mappings := p];
      Repr := Repr + {leaf.mappings};
      MappingsAllocated(leaf, p);
    }

    /** The store in `insertMapForVpn2Pfn`: the entry `slot` refers to gets
        frame `frame`, then is marked valid. */
    method StoreAt(slot: SlotRef, ghost q: seq<nat>, frame: int)
      requires Valid() && Addresses(slot, q)
      modifies this`slots, slot.table
      ensures Valid() && slots == old(slots)[q := frame]
    {
      assert NodeOk(Parent(q));
      slot.table[slot.index] := slot.table[slot.index].(pfn := frame);
      slot.table[slot.index] := slot.table[slot.index].(valid := true);
      slots := slots[q := frame];
      EntryWritten(slot, q);
    }

    /** The invalidation in the simulator's eviction: the valid entry `slot`
        refers to is marked not valid; its frame number stays. */
    method InvalidateSlot(slot: SlotRef, ghost q: seq<nat>)
      requires Valid() && Locates(slot, q)
      modifies this`slots, slot.table
      ensures Valid() && slots == old(slots) - {q}
    {
      assert SlotOk(q) && NodeOk(Parent(q));
      slot.table[slot.index] := slot.table[slot.index].(valid := false);
      slots := slots - {q};
      EntryWritten(slot, q);
    }

    // ---------------------------------------------------------------------
    // Preservation of the tree invariant by the four heap updates above.

    /** The state after `ensureChild` on the node at `p`, seen from the
        state before: only `node` and its child array changed, and a child
        that did not exist is recorded at `p + [index]`. */
    twostate predicate ChildStep(new node: Level, new p: seq<nat>, new index: nat, new child: Level, new existed: bool)
      reads *
    {
      && old(Valid()) && p in old(nodesAt) && old(nodesAt[p]) == node
      && !old(node.isLeaf) && index < old(node.entryCount) && |p| + 1 < numLevels
      && (old(node.children) != null ==> old(node.children.Length) == old(node.entryCount))
      && numLevels == old(numLevels) && entryCount == old(entryCount) && levelBits == old(levelBits)
      && bitmasks == old(bitmasks) && shifts == old(shifts) && offsetBits == old(offsetBits)
      && offsetMask == old(offsetMask) && rootLevel == old(rootLevel)
      && slots == old(slots) && mappingsPath == old(mappingsPath)
      && node.isLeaf == old(node.isLeaf) && node.entryCount == old(node.entryCount)
      && node.mappings == old(node.mappings) && node.depth == old(node.depth)
      && node.children != null && node.children.Length == node.entryCount && node.children[index] == child
      && (old(node.children) != null ==> node.children == old(node.children))
      && (old(node.children) == null ==> fresh(node.children))
      && (forall k | 0 <= k < node.entryCount && k != index ::
            node.children[k] == (if old(node.children) == null then null else old(node.children[k])))
      && (forall o: object | o in old(Repr) && o != this && o != node && o != node.children :: unchanged(o))
      && existed == (old(node.children) != null && old(node.children[index]) != null)
      && (existed ==>
            && child == old(node.children[index])
            && nodesAt == old(nodesAt) && levelPath == old(levelPath) && childrenPath == old(childrenPath)
            && Repr == old(Repr))
      && (!existed ==>
            && p + [index] !in old(nodesAt)
            && fresh(child)
            && child.entryCount == entryCount[|p| + 1] && child.isLeaf == (|p| + 2 == numLevels)
            && child.depth == |p| + 1 && child.children == null && child.mappings == null
            && nodesAt == old(nodesAt)[p + [index] := child]
            && levelPath == old(levelPath)[child := p + [index]]
            && childrenPath == old(childrenPath)[node.children := p]
            && Repr == old(Repr) + {child, node.children})
    }

    /** What `ensureChild` on the node at `p` leaves as it was: every old
        node at its path and with its own path, every old array with its
        path, and every object of the old footprint but the node and its
        child array; the only new node is the one at `p + [index]`. */
    twostate predicate OthersKept(new node: Level, new p: seq<nat>, new index: nat)
      reads *
    {
      && old(Valid()) && p in old(nodesAt) && old(nodesAt[p]) == node && node.children != null
      && numLevels == old(numLevels) && entryCount == old(entryCount)
      && slots == old(slots) && mappingsPath == old(mappingsPath) && old(Repr) <= Repr
      && (old(node.children) != null ==> node.children == old(node.children))
      && (old(node.children) == null ==> node.children !in old(Repr))
      && (forall q | q in old(nodesAt) :: q in nodesAt && nodesAt[q] == old(nodesAt[q]))
      && (forall q | q in nodesAt && q !in old(nodesAt) :: q == p + [index])
      && (forall n | n in old(levelPath) :: n in levelPath && levelPath[n] == old(levelPath[n]))
      && (forall a | a in old(childrenPath) :: a in childrenPath && childrenPath[a] == old(childrenPath[a]))
      && (forall o: object | o in old(Repr) && o != this && o != node && o != node.children :: unchanged(o))
    }

    /** `ensureChild` keeps everything `OthersKept` names. */
    twostate lemma ChildKeepsOthers(new node: Level, new p: seq<nat>, new index: nat, new child: Level, new existed: bool)
      requires ChildStep(node, p, index, child, existed)
      ensures OthersKept(node, p, index)
    {
      if !existed {
        if old(node.children) != null {
          assert old(NodeOk(p));
        } else {
          assert node.children !in old(Repr) && node.children !in old(childrenPath);
        }
      }
    }

    /** `ensureChild` keeps the table well formed, adds only fresh objects
        and grows it only along `p + [index]`. */
    twostate lemma ChildEnsured(new node: Level, new p: seq<nat>, new index: nat, new child: Level, new existed: bool)
      requires ChildStep(node, p, index, child, existed)
      ensures Valid() && fresh(Repr - old(Repr))
      ensures NodesGrowAlong(old(nodesAt), nodesAt, p + [index, 0])
      ensures ArraysGrowAlong(old(childrenPath), childrenPath, p + [index])
    {
      ChildFresh(node, p, index, child, existed);
      ChildGrows(node, p, index, child, existed);
      ChildKeepsOthers(node, p, index, child, existed);
      var q := p + [index];
      forall r: seq<nat> | r in nodesAt
        ensures NodeOk(r)
      {
        if r == q {
          ChildNodeOk(node, p, index, child, existed);
        } else if r == p {
          StepNodeOk(node, p, index, child, existed);
        } else {
          OtherNodeOk(node, p, index, r);
        }
      }
      forall s: seq<nat> | s in slots
        ensures SlotOk(s)
      {
        SlotKept(node, p, index, child, existed, s);
      }
    }

    /** Objects added to the footprint are new. */
    twostate lemma ChildFresh(new node: Level, new p: seq<nat>, new index: nat, new child: Level, new existed: bool)
      requires ChildStep(node, p, index, child, existed)
      ensures fresh(Repr - old(Repr))
    {
      if !existed && old(node.children) != null {
        assert old(NodeOk(p));
        assert node.children in old(Repr);
      }
    }

    /** `ensureChild` adds at most the node at `p + [index]` and the child
        array of the node at `p`, and keeps every other entry. */
    twostate lemma ChildGrows(new node: Level, new p: seq<nat>, new index: nat, new child: Level, new existed: bool)
      requires ChildStep(node, p, index, child, existed)
      ensures NodesGrowAlong(old(nodesAt), nodesAt, p + [index, 0])
      ensures ArraysGrowAlong(old(childrenPath), childrenPath, p + [index])
    {
      if !existed {
        assert p + [index] < p + [index, 0];
        if old(node.children) != null {
          assert old(NodeOk(p));
        } else {
          assert node.children !in old(childrenPath);
        }
      }
    }

    /** The child at `p + [index]` is a well-formed node. */
    twostate lemma ChildNodeOk(new node: Level, new p: seq<nat>, new index: nat, new child: Level, new existed: bool)
      requires ChildStep(node, p, index, child, existed)
      ensures p + [index] in nodesAt && NodeOk(p + [index])
    {
      var q := p + [index];
      assert Parent(q) == p && Last(q) == index;
      assert old(NodeOk(p));
      if existed {
        assert old(NodeOk(q));
      }
    }

    /** The node `ensureChild` ran on is a well-formed node. */
    twostate lemma StepNodeOk(new node: Level, new p: seq<nat>, new index: nat, new child: Level, new existed: bool)
      requires ChildStep(node, p, index, child, existed)
      ensures p in nodesAt && NodeOk(p)
    {
      assert old(NodeOk(p));
      assert nodesAt[p] == node && levelPath[node] == p;
      assert node.children in childrenPath && childrenPath[node.children] == p;
      forall k | 0 <= k < node.entryCount && k != index
        ensures p + [k] in nodesAt <==> p + [k] in old(nodesAt)
        ensures p + [k] in nodesAt ==> nodesAt[p + [k]] == old(nodesAt[p + [k]])
        ensures node.children[k] != null <==> p + [k] in nodesAt
      {
        ChildPathsDiffer(p, k, p, index);
        if p + [k] in old(nodesAt) {
          assert old(NodeOk(p + [k])) && Parent(p + [k]) == p;
        }
      }
      if p != [] {
        assert old(NodeOk(Parent(p)));
        var up := old(nodesAt[Parent(p)]);
        assert nodesAt[Parent(p)] == up && up != node;
      }
    }

    /** Every other node is still well formed. */
    twostate lemma OtherNodeOk(new node: Level, new p: seq<nat>, new index: nat, new r: seq<nat>)
      requires OthersKept(node, p, index)
      requires r in nodesAt && r != p && r != p + [index]
      ensures NodeOk(r)
    {
      assert old(NodeOk(p));
      assert old(NodeOk(r));
      var n := old(nodesAt[r]);
      assert nodesAt[r] == n && n != node && levelPath[n] == r;
      assert n.children == old(n.children) && n.mappings == old(n.mappings);
      if n.children != null {
        assert n.children != node.children;
      }
      forall k | 0 <= k < n.entryCount
        ensures r + [k] in nodesAt <==> r + [k] in old(nodesAt)
        ensures r + [k] in nodesAt ==> nodesAt[r + [k]] == old(nodesAt[r + [k]])
      {
        ChildPathsDiffer(r, k, p, index);
      }
      if r != [] && Parent(r) != p {
        assert old(NodeOk(Parent(r)));
      }
      KeptNodeOk(r);
    }

    /** A node that is where it was, with its fields, its arrays, its links
        to its children and its parent's child array as they were, is still
        well formed. */
    twostate lemma KeptNodeOk(new r: seq<nat>)
      requires old(Valid()) && r in old(nodesAt) && r in nodesAt && nodesAt[r] == old(nodesAt[r])
      requires numLevels == old(numLevels) && entryCount == old(entryCount)
      requires slots == old(slots) && mappingsPath == old(mappingsPath) && old(Repr) <= Repr
      requires nodesAt[r] in levelPath && levelPath[nodesAt[r]] == r && unchanged(nodesAt[r])
      requires old(nodesAt[r].children) != null ==>
        && unchanged(old(nodesAt[r].children))
        && old(nodesAt[r].children) in childrenPath && childrenPath[old(nodesAt[r].children)] == r
      requires old(nodesAt[r].mappings) != null ==> unchanged(old(nodesAt[r].mappings))
      requires forall k | 0 <= k < old(nodesAt[r].entryCount) ::
        && (r + [k] in nodesAt <==> r + [k] in old(nodesAt))
        && (r + [k] in nodesAt ==> nodesAt[r + [k]] == old(nodesAt[r + [k]]))
      requires r != [] ==> Parent(r) in nodesAt && nodesAt[Parent(r)] in Repr && nodesAt[Parent(r)].children != null
      ensures NodeOk(r)
    {
      assert old(NodeOk(r));
    }

    /** Every slot is still a slot. */
    twostate lemma SlotKept(new node: Level, new p: seq<nat>, new index: nat, new child: Level, new existed: bool, new s: seq<nat>)
      requires ChildStep(node, p, index, child, existed)
      requires s in slots
      ensures SlotOk(s)
    {
      assert old(SlotOk(s));
      var n := old(nodesAt[Parent(s)]);
      assert old(NodeOk(Parent(s)));
      assert n != node;
      assert Parent(s) in nodesAt && nodesAt[Parent(s)] == n;
    }

    /** The state after `allocateMappings` on the leaf at `p`: the leaf has
        a fresh array of unused entries and nothing else changed. */
    twostate predicate MappingsStep(new leaf: Level, new p: seq<nat>)
      reads *
    {
      && old(Valid()) && p in old(nodesAt) && old(nodesAt[p]) == leaf
      && old(leaf.isLeaf) && old(leaf.mappings) == null
      && numLevels == old(numLevels) && entryCount == old(entryCount) && levelBits == old(levelBits)
      && bitmasks == old(bitmasks) && shifts == old(shifts) && offsetBits == old(offsetBits)
      && offsetMask == old(offsetMask) && rootLevel == old(rootLevel) && slots == old(slots)
      && nodesAt == old(nodesAt) && levelPath == old(levelPath) && childrenPath == old(childrenPath)
      && leaf.isLeaf == old(leaf.isLeaf) && leaf.entryCount == old(leaf.entryCount)
      && leaf.children == old(leaf.children) && leaf.depth == old(leaf.depth)
      && leaf.mappings != null && fresh(leaf.mappings) && leaf.mappings.Length == leaf.entryCount
      && (forall k | 0 <= k < leaf.mappings.Length :: !leaf.mappings[k].valid)
      && (forall o: object | o in old(Repr) && o != this && o != leaf :: unchanged(o))
      && mappingsPath == old(mappingsPath)[leaf.mappings := p]
      && Repr == old(Repr) + {leaf.mappings}
    }

    twostate lemma MappingsAllocated(new leaf: Level, new p: seq<nat>)
      requires MappingsStep(leaf, p)
      ensures Valid()
    {
      forall r: seq<nat> | r in nodesAt
        ensures NodeOk(r)
      {
        MappingsNodeOk(leaf, p, r);
      }
      forall s: seq<nat> | s in slots
        ensures SlotOk(s)
      {
        assert old(SlotOk(s));
        assert old(NodeOk(Parent(s)));
      }
    }

    twostate lemma MappingsNodeOk(new leaf: Level, new p: seq<nat>, new r: seq<nat>)
      requires MappingsStep(leaf, p) && r in nodesAt
      ensures NodeOk(r)
    {
      assert old(NodeOk(p));
      assert old(NodeOk(r));
      if r != p {
        assert nodesAt[r] != leaf;
      } else {
        forall q: seq<nat> | q in slots
          ensures |q| > 0 && Parent(q) != p
        {
          assert old(SlotOk(q));
        }
        forall k | 0 <= k < leaf.mappings.Length
          ensures p + [k] !in slots
        {
          assert Parent(p + [k]) == p;
        }
      }
      if r != [] {
        assert old(NodeOk(Parent(r)));
      }
    }

    /** The state after a store through `slot` into the entry at path `q`:
        only that entry changed, and `slots` records it. */
    twostate predicate EntryStep(new slot: SlotRef, new q: seq<nat>)
      reads *
    {
      && old(Valid())
      && 0 < |q| == old(numLevels) == old(|entryCount|) && Parent(q) in old(nodesAt)
      && Last(q) < old(entryCount[|q| - 1]) && old(nodesAt[Parent(q)]) in old(Repr)
      && old(nodesAt[Parent(q)].mappings) == slot.table && slot.index == Last(q)
      && numLevels == old(numLevels) && entryCount == old(entryCount) && levelBits == old(levelBits)
      && bitmasks == old(bitmasks) && shifts == old(shifts) && offsetBits == old(offsetBits)
      && offsetMask == old(offsetMask) && rootLevel == old(rootLevel)
      && nodesAt == old(nodesAt) && levelPath == old(levelPath) && childrenPath == old(childrenPath)
      && mappingsPath == old(mappingsPath) && Repr == old(Repr)
      && (forall o: object | o in old(Repr) && o != this && o != slot.table :: unchanged(o))
      && slot.index < slot.table.Length
      && (forall j | 0 <= j < slot.table.Length && j != slot.index :: slot.table[j] == old(slot.table[j]))
      && (slot.table[slot.index].valid ==> slots == old(slots)[q := slot.table[slot.index].pfn])
      && (!slot.table[slot.index].valid ==> slots == old(slots) - {q})
    }

    twostate lemma EntryWritten(new slot: SlotRef, new q: seq<nat>)
      requires EntryStep(slot, q)
      ensures Valid()
    {
      forall r: seq<nat> | r in nodesAt
        ensures NodeOk(r)
      {
        EntryNodeOk(slot, q, r);
      }
      forall s: seq<nat> | s in slots
        ensures SlotOk(s)
      {
        EntrySlotOk(slot, q, s);
      }
    }

    twostate lemma EntrySlotOk(new slot: SlotRef, new q: seq<nat>, new s: seq<nat>)
      requires EntryStep(slot, q) && s in slots
      ensures SlotOk(s)
    {
      if s != q {
        assert old(SlotOk(s));
        assert old(NodeOk(Parent(s)));
      }
    }

    twostate lemma EntryNodeOk(new slot: SlotRef, new q: seq<nat>, new r: seq<nat>)
      requires EntryStep(slot, q) && r in nodesAt
      ensures NodeOk(r)
    {
      if r == Parent(q) {
        EntryLeafOk(slot, q);
      } else {
        EntryOtherOk(slot, q, r);
      }
    }

    /** The leaf whose entry was written is well formed. */
    twostate lemma EntryLeafOk(new slot: SlotRef, new q: seq<nat>)
      requires EntryStep(slot, q)
      ensures Parent(q) in nodesAt && NodeOk(Parent(q))
    {
      var p := Parent(q);
      assert old(NodeOk(p));
      EntryLeafSlots(slot, q);
      if p != [] {
        assert old(NodeOk(Parent(p)));
      }
    }

    /** The entries of the leaf whose entry was written agree with `slots`. */
    twostate lemma EntryLeafSlots(new slot: SlotRef, new q: seq<nat>)
      requires EntryStep(slot, q)
      ensures forall k {:trigger slot.table[k]} | 0 <= k < slot.table.Length ::
        && (slot.table[k].valid <==> Parent(q) + [k] in slots)
        && (slot.table[k].valid ==> slots[Parent(q) + [k]] == slot.table[k].pfn)
    {
      var p := Parent(q);
      assert old(NodeOk(p));
      assert q == p + [Last(q)];
      forall k | 0 <= k < slot.table.Length
        ensures slot.table[k].valid <==> p + [k] in slots
        ensures slot.table[k].valid ==> slots[p + [k]] == slot.table[k].pfn
      {
        if k != slot.index {
          ChildPathsDiffer(p, k, p, Last(q));
          assert slot.table[k] == old(slot.table[k]);
        }
      }
    }

    /** Every other node is still well formed. */
    twostate lemma EntryOtherOk(new slot: SlotRef, new q: seq<nat>, new r: seq<nat>)
      requires EntryStep(slot, q) && r in nodesAt && r != Parent(q)
      ensures NodeOk(r)
    {
      var p := Parent(q);
      assert old(NodeOk(p));
      assert q == p + [Last(q)];
      assert old(NodeOk(r));
      var n := nodesAt[r];
      assert n.mappings != slot.table;
      if n.mappings != null {
        forall k | 0 <= k < n.mappings.Length
          ensures r + [k] in slots <==> r + [k] in old(slots)
          ensures r + [k] in slots ==> slots[r + [k]] == old(slots[r + [k]])
        {
          ChildPathsDiffer(r, k, p, Last(q));
        }
      }
      if r != [] {
        assert old(NodeOk(Parent(r)));
      }
    }
  }
}
