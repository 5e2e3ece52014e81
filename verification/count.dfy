/**
 * The structural size of the page table (`countLevelEntries` and
 * `countEntries`): the number of slots in every array the tree has
 * allocated, child-pointer arrays and mapping arrays alike, whether the
 * slots are in use or not.
 *
 * `SlotsUnder(pt, p)` is the reference: the set of index paths one step
 * below a node at or under `p` that has an allocated array. The counting
 * method is proved to return its size.
 */
module Counting {
  import opened Levels
  import opened PageTables

  /** Slots of the array the node at `p` has allocated: the entry count of
      a leaf's mapping array or of an interior node's child array, else 0. */
  ghost function OwnEntries(pt: PageTable, p: seq<nat>): nat
    reads pt, pt.Repr
    requires pt.Valid() && p in pt.nodesAt
  {
    pt.NodeShape(p);
    var n := pt.nodesAt[p];
    if n.isLeaf then (if n.mappings != null then n.entryCount else 0)
    else (if n.children != null then n.entryCount else 0)
  }

  /** Every allocated slot at or under the node at `p`, by index path. */
  ghost function SlotsUnder(pt: PageTable, p: seq<nat>): set<seq<nat>>
    reads pt, pt.Repr
    requires pt.Valid()
  {
    set r, k | r in pt.nodesAt && p <= r && 0 <= k < OwnEntries(pt, r) :: r + [k]
  }

  /** The count `countLevelEntries` computes for the node at `p`: its own
      slots plus, for an interior node, what its present children count. */
  ghost function SubtreeEntries(pt: PageTable, p: seq<nat>): nat
    reads pt, pt.Repr
    requires pt.Valid() && p in pt.nodesAt
    decreases pt.numLevels - |p|, 1
  {
    pt.NodeShape(p);
    var n := pt.nodesAt[p];
    OwnEntries(pt, p) + (if !n.isLeaf && n.children != null then ChildEntries(pt, p, n.entryCount) else 0)
  }

  /** What the children at indices below `i` of the node at `p` count. */
  ghost function ChildEntries(pt: PageTable, p: seq<nat>, i: nat): nat
    reads pt, pt.Repr
    requires pt.Valid() && p in pt.nodesAt
    decreases pt.numLevels - |p|, 0, i
  {
    pt.NodeShape(p);
    if i == 0 then 0
    else if p + [i - 1] in pt.nodesAt then
      pt.NodeShape(p + [i - 1]);
      ChildEntries(pt, p, i - 1) + SubtreeEntries(pt, p + [i - 1])
    else ChildEntries(pt, p, i - 1)
  }

  /** `countLevelEntries`: 0 for a null node; a leaf counts its mapping
      slots if allocated; an interior node with a child array counts its
      child slots and, recursively, every present child. */
  method CountLevelEntries(ghost pt: PageTable, node: Level?, ghost p: seq<nat>) returns (total: nat)
    requires pt.Valid() && (node != null ==> p in pt.nodesAt && pt.nodesAt[p] == node)
    ensures node == null ==> total == 0
    ensures node != null ==> total == |SlotsUnder(pt, p)|
    decreases pt.numLevels - |p|
  {
    if node == null {
      return 0;
    }
    pt.NodeShape(p);
    total := 0;
    if node.isLeaf {
      if node.mappings != null {
        total := total + node.entryCount;
      }
      CountedSlots(pt, p);
      return;
    }
    if node.children != null {
      total := total + node.entryCount;
      var i := 0;
      while i < node.entryCount
        invariant 0 <= i <= node.entryCount
        invariant total == node.entryCount + ChildEntries(pt, p, i)
      {
        pt.NodeLinks(p, i);
        if node.children[i] != null {
          var c := CountLevelEntries(pt, node.children[i], p + [i]);
          CountedSlots(pt, p + [i]);
          total := total + c;
        }
        i := i + 1;
      }
    }
    CountedSlots(pt, p);
  }

  /** `countEntries`: 0 without a table, else the count from the root,
      which is every allocated slot of the tree. */
  method CountEntries(pt: PageTable?) returns (count: nat)
    requires pt != null ==> pt.Valid()
    ensures pt == null ==> count == 0
    ensures pt != null ==> count == |SlotsUnder(pt, [])|
  {
    if pt == null {
      return 0;
    }
    count := CountLevelEntries(pt, pt.rootLevel, []);
    if pt.rootLevel == null {
      assert SlotsUnder(pt, []) == {};
    }
  }

  // ---------------------------------------------------------------------
  // The recursive count is the number of allocated slots.

  /** `SubtreeEntries` counts exactly the allocated slots under `p`. */
  lemma {:induction false} CountedSlots(pt: PageTable, p: seq<nat>)
    requires pt.Valid() && p in pt.nodesAt
    ensures SubtreeEntries(pt, p) == |SlotsUnder(pt, p)|
    decreases pt.numLevels - |p|, 1
  {
    pt.NodeShape(p);
    var n := pt.nodesAt[p];
    OwnSlotsCount(p, OwnEntries(pt, p));
    if !n.isLeaf && n.children != null {
      ChildSlotsCount(pt, p, n.entryCount);
      SplitSlots(pt, p);
    } else {
      OnlyOwnSlots(pt, p);
    }
  }

  /** The slots of the node's own array. */
  ghost function OwnSlots(p: seq<nat>, m: nat): set<seq<nat>>
  {
    set k | 0 <= k < m :: p + [k]
  }

  /** Slots at least two steps below `p`, under a child index below `i`. */
  ghost function ChildSlots(pt: PageTable, p: seq<nat>, i: nat): set<seq<nat>>
    reads pt, pt.Repr
    requires pt.Valid()
  {
    set s | s in SlotsUnder(pt, p) && |s| > |p| + 1 && s[|p|] < i
  }

  lemma {:induction false} OwnSlotsCount(p: seq<nat>, m: nat)
    ensures |OwnSlots(p, m)| == m
  {
    if m > 0 {
      OwnSlotsCount(p, m - 1);
      assert OwnSlots(p, m) == OwnSlots(p, m - 1) + {p + [m - 1]};
      assert p + [m - 1] !in OwnSlots(p, m - 1) by {
        forall k | 0 <= k < m - 1
          ensures p + [k] != p + [m - 1]
        {
          assert (p + [k])[|p|] == k;
        }
      }
    } else {
      assert OwnSlots(p, m) == {};
    }
  }

  /** A node strictly below `p` lies under one of `p`'s children, so `p`
      is an interior node with a child array. */
  lemma NodesBelow(pt: PageTable, p: seq<nat>, r: seq<nat>)
    requires pt.Valid() && p in pt.nodesAt && r in pt.nodesAt && p < r
    ensures p + [r[|p|]] in pt.nodesAt && p + [r[|p|]] <= r
    ensures !pt.nodesAt[p].isLeaf && pt.nodesAt[p].children != null
    ensures r[|p|] < pt.nodesAt[p].entryCount
  {
    var c := r[..|p| + 1];
    pt.PrefixIn(r, |p| + 1);
    assert c == p + [r[|p|]] && Parent(c) == p;
    pt.NodeShape(p);
    pt.NodeShape(c);
    pt.NodeLinks(p, r[|p|]);
  }

  /** A leaf, or an interior node without a child array, has only its own slots under it. */
  lemma OnlyOwnSlots(pt: PageTable, p: seq<nat>)
    requires pt.Valid() && p in pt.nodesAt
    requires pt.nodesAt[p].isLeaf || pt.nodesAt[p].children == null
    ensures SlotsUnder(pt, p) == OwnSlots(p, OwnEntries(pt, p))
  {
    forall r: seq<nat> | r in pt.nodesAt && p <= r
      ensures r == p
    {
      if p < r {
        NodesBelow(pt, p, r);
      }
    }
    forall s | s in OwnSlots(p, OwnEntries(pt, p))
      ensures s in SlotsUnder(pt, p)
    {
      var k :| 0 <= k < OwnEntries(pt, p) && s == p + [k];
    }
  }

  /** The slots under an interior node with a child array are its own and
      those under its children. */
  lemma SplitSlots(pt: PageTable, p: seq<nat>)
    requires pt.Valid() && p in pt.nodesAt
    requires !pt.nodesAt[p].isLeaf && pt.nodesAt[p].children != null
    ensures SlotsUnder(pt, p) == OwnSlots(p, OwnEntries(pt, p)) + ChildSlots(pt, p, pt.nodesAt[p].entryCount)
    ensures OwnSlots(p, OwnEntries(pt, p)) !! ChildSlots(pt, p, pt.nodesAt[p].entryCount)
  {
    var e := pt.nodesAt[p].entryCount;
    forall s | s in SlotsUnder(pt, p)
      ensures s in OwnSlots(p, OwnEntries(pt, p)) || s in ChildSlots(pt, p, e)
    {
      var r, k :| r in pt.nodesAt && p <= r && 0 <= k < OwnEntries(pt, r) && s == r + [k];
      if r == p {
        assert s in OwnSlots(p, OwnEntries(pt, p));
      } else {
        NodesBelow(pt, p, r);
        assert s[|p|] == r[|p|];
      }
    }
    forall s | s in OwnSlots(p, OwnEntries(pt, p))
      ensures s in SlotsUnder(pt, p) && |s| == |p| + 1
    {
      var k :| 0 <= k < OwnEntries(pt, p) && s == p + [k];
    }
  }

  /** Adding child `i` adds the slots under it, which are new. */
  lemma {:induction false} ChildSlotsCount(pt: PageTable, p: seq<nat>, i: nat)
    requires pt.Valid() && p in pt.nodesAt
    requires !pt.nodesAt[p].isLeaf && pt.nodesAt[p].children != null && i <= pt.nodesAt[p].entryCount
    ensures ChildEntries(pt, p, i) == |ChildSlots(pt, p, i)|
    decreases pt.numLevels - |p|, 0, i
  {
    if i == 0 {
      assert ChildSlots(pt, p, 0) == {};
    } else {
      var c := p + [i - 1];
      ChildSlotsCount(pt, p, i - 1);
      ChildSlotsStep(pt, p, i - 1);
      if c in pt.nodesAt {
        pt.NodeShape(c);
        CountedSlots(pt, c);
      }
    }
  }

  /** The slots under child `i` of `p` are those two or more steps below
      `p` through index `i`; there are none when that child is absent. */
  lemma ChildSlotsStep(pt: PageTable, p: seq<nat>, i: nat)
    requires pt.Valid() && p in pt.nodesAt
    ensures p + [i] in pt.nodesAt ==>
      ChildSlots(pt, p, i + 1) == ChildSlots(pt, p, i) + SlotsUnder(pt, p + [i])
      && ChildSlots(pt, p, i) !! SlotsUnder(pt, p + [i])
    ensures p + [i] !in pt.nodesAt ==> ChildSlots(pt, p, i + 1) == ChildSlots(pt, p, i)
  {
    var c := p + [i];
    forall s | s in ChildSlots(pt, p, i + 1) && s[|p|] == i
      ensures c in pt.nodesAt && s in SlotsUnder(pt, c)
    {
      var r, k :| r in pt.nodesAt && p <= r && 0 <= k < OwnEntries(pt, r) && s == r + [k];
      assert p < r && s[|p|] == r[|p|];
      NodesBelow(pt, p, r);
    }
    if c in pt.nodesAt {
      forall s | s in SlotsUnder(pt, c)
        ensures s in ChildSlots(pt, p, i + 1) && s[|p|] == i
      {
        var r, k :| r in pt.nodesAt && c <= r && 0 <= k < OwnEntries(pt, r) && s == r + [k];
        assert p <= r && s[|p|] == r[|p|] == i;
      }
    }
  }
}
