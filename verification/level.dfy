/**
 * One node of the multi-level page table (`struct Level`). An interior
 * node owns an array of child pointers, a leaf owns an array of mappings;
 * both arrays are allocated on first use.
 */
module Levels {
  /** One leaf entry (`Map`): the frame number and whether it is in use. */
  datatype Mapping = Mapping(pfn: int, valid: bool)

  /** A leaf entry as allocated, before anything is stored in it. */
  const UNUSED: Mapping := Mapping(0, false)

  /** A `Map*` or `Map&`: entry `index` of a leaf's mapping array. */
  datatype SlotRef = SlotRef(table: array<Mapping>, index: nat)

  class Level {
    var isLeaf: bool
    var entryCount: nat
    var children: array?<Level?>
    var mappings: array?<Mapping>
    var depth: nat

    /** A node with neither array allocated. */
    constructor (entryCount: nat, isLeaf: bool, depth: nat)
      ensures this.entryCount == entryCount && this.isLeaf == isLeaf && this.depth == depth
      ensures children == null && mappings == null
    {
      this.entryCount := entryCount;
      this.isLeaf := isLeaf;
      this.children := null;
      this.mappings := null;
      this.depth := depth;
    }

    /** `allocateChildren`: an interior node without a child array gets one
        of `entryCount` null pointers; otherwise nothing changes. */
    method AllocateChildren()
      modifies this
      ensures !isLeaf && old(children) == null ==>
        fresh(children) && children.Length == entryCount && forall k | 0 <= k < entryCount :: children[k] == null
      ensures isLeaf || old(children) != null ==> children == old(children)
      ensures isLeaf == old(isLeaf) && entryCount == old(entryCount)
      ensures mappings == old(mappings) && depth == old(depth)
    {
      if !isLeaf && children == null {
        var a := new Level?[entryCount];
        var i := 0;
        while i < entryCount
          modifies a
          invariant 0 <= i <= entryCount == a.Length
          invariant forall k | 0 <= k < i :: a[k] == null
        {
          a[i] := null;
          i := i + 1;
        }
        children := a;
      }
    }

    /** `allocateMappings`: a leaf without a mapping array gets one of
        `entryCount` unused entries; otherwise nothing changes. */
    method AllocateMappings()
      modifies this
      ensures isLeaf && old(mappings) == null ==>
        fresh(mappings) && mappings.Length == entryCount && forall k | 0 <= k < entryCount :: !mappings[k].valid
      ensures !isLeaf || old(mappings) != null ==> mappings == old(mappings)
      ensures isLeaf == old(isLeaf) && entryCount == old(entryCount)
      ensures children == old(children) && depth == old(depth)
    {
      if isLeaf && mappings == null {
        mappings := new Mapping[entryCount](_ => UNUSED);
      }
    }

    /** `ensureChild`: the child at `index`, created one level deeper if it
        was missing. No other child pointer changes. */
    method EnsureChild(index: nat, childEntryCount: nat, childIsLeaf: bool) returns (child: Level)
      requires !isLeaf && index < entryCount
      requires children != null ==> children.Length == entryCount
      modifies this, children
      ensures isLeaf == old(isLeaf) && entryCount == old(entryCount)
      ensures mappings == old(mappings) && depth == old(depth)
      ensures children != null && children.Length == entryCount && children[index] == child
      ensures old(children) != null ==> children == old(children)
      ensures old(children) == null ==> fresh(children)
      ensures old(children) != null && old(children[index]) != null ==> child == old(children[index])
      ensures old(children) == null || old(children[index]) == null ==>
        && fresh(child)
        && child.entryCount == childEntryCount && child.isLeaf == childIsLeaf && child.depth == depth + 1
        && child.children == null && child.mappings == null
      ensures forall k | 0 <= k < entryCount && k != index ::
        children[k] == (if old(children) == null then null else old(children[k]))
    {
      if children == null {
        AllocateChildren();
      }
      if children[index] == null {
        children[index] := new Level(childEntryCount, childIsLeaf, depth + 1);
      }
      child := children[index];
    }

    /** `getChild`: null when the child array is not allocated. */
    function GetChild(index: nat): (child: Level?)
      reads this, children
      requires children != null ==> index < children.Length
      ensures child != null ==> children != null && children[index] == child
      ensures children != null ==> child == children[index]
    {
      if children == null then null else children[index]
    }

    /** `getMapping`: a reference to entry `index` of an allocated mapping
        array, through which the entry can be changed. */
    function GetMapping(index: nat): (slot: SlotRef)
      reads this
      requires mappings != null && index < mappings.Length
      ensures slot.table == mappings && slot.index == index && slot.index < slot.table.Length
    {
      SlotRef(mappings, index)
    }

    /** `getMap`: the entry at `index` of an allocated mapping array. */
    function GetMap(index: nat): (m: Mapping)
      reads this, mappings
      requires mappings != null && index < mappings.Length
      ensures m == mappings[index]
    {
      mappings[index]
    }
  }
}
