/**
 The free list and the garbage collection of src/core/memmgr.cpp for one type of recyclable object, or
 for network buffers: freed objects are linked through themselves, and collection deletes as many of
 them as the usage of the last rounds did not need.
 */
module RecyclePool {

  /** An object that can be recycled; `next` links it to the rest of the free list. */
  class Recyclable {
    var next: Recyclable?

    constructor ()
      ensures next == null
    {
      next := null;
    }
  }

  const MAX_USAGE_SIZE: nat := 12

  function MaxOf(s: seq<nat>): (m: nat)
    ensures forall i | 0 <= i < |s| :: s[i] <= m
    ensures s == [] ==> m == 0
    ensures s != [] ==> m in s
  {
    if s == [] then 0
    else
      var m := MaxOf(s[..|s| - 1]);
      if m < s[|s| - 1] then s[|s| - 1] else m
  }

  /** The `i`-th object, or null past the end. */
  function Nth(list: seq<Recyclable>, i: nat): Recyclable? { if i < |list| then list[i] else null }

  class RecyclePool {
    var freeList: Recyclable?
    var free: nat
    var total: nat
    var usage: seq<nat>                     // `m_max_usage` of this type
    var usageIdx: nat
    ghost var list: seq<Recyclable>         // the objects on the free list
    ghost var used: set<Recyclable>         // the objects handed out

    /** The free list is a chain of distinct objects, none of them in use. */
    ghost predicate Chained()
      reads this, list
    {
      && freeList == Nth(list, 0)
      && (forall i | 0 <= i < |list| :: list[i].next == Nth(list, i + 1))
      && (forall i, j | 0 <= i < j < |list| :: list[i] != list[j])
      && (forall i | 0 <= i < |list| :: list[i] !in used)
    }

    ghost predicate Valid()
      reads this, list
    {
      && Chained()
      && free == |list| && total == |list| + |used|
      && |usage| == MAX_USAGE_SIZE && usageIdx < MAX_USAGE_SIZE
    }

    constructor ()
      ensures Valid() && list == [] && used == {} && usageIdx == 0 && usage == seq(MAX_USAGE_SIZE, i => 0)
    {
      freeList, free, total, list, used := null, 0, 0, [], {};
      usage, usageIdx := seq(MAX_USAGE_SIZE, i => 0), 0;
    }

    /** Unlinks the first object of the free list. */
    method Pop() returns (r: Recyclable)
      requires Chained() && freeList != null
      modifies `freeList, `list
      ensures Chained() && old(list) != [] && r == old(list)[0] && list == old(list)[1..]
      ensures r !in used && (forall i | 0 <= i < |list| :: list[i] != r)
    {
      r := freeList;
      ghost var was := list;
      assert was[0].next == Nth(was, 1);
      freeList := r.next;
      list := list[1..];
      forall i | 0 <= i < |list| ensures list[i].next == Nth(list, i + 1) {
        assert was[i + 1].next == Nth(was, i + 2) && list[i] == was[i + 1];
      }
    }

    /** Links an object that is neither free nor in use to the front of the free list. */
    method Push(r: Recyclable)
      requires Chained() && r !in used && r !in list
      modifies `freeList, `list, r`next
      ensures Chained() && list == [r] + old(list)
    {
      ghost var was := list;
      r.next := freeList;
      freeList := r;
      list := [r] + list;
      forall i | 0 <= i < |list| ensures list[i].next == Nth(list, i + 1) {
        if i > 0 { assert was[i - 1].next == Nth(was, i) && list[i] == was[i - 1] != r; }
      }
    }

    /** `alloc_recyclable`: the first free object, or a new one if there is none. */
    method Alloc() returns (r: Recyclable)
      requires Valid()
      modifies this, list
      ensures Valid() && r !in old(used) && used == old(used) + {r} && r.next == null
      ensures if old(list) == [] then fresh(r) && list == [] && total == old(total) + 1
              else r == old(list)[0] && list == old(list)[1..] && total == old(total)
      ensures usage == old(usage) && usageIdx == old(usageIdx)
    {
      if freeList != null {
        r := Pop();
        free := free - 1;
      } else {
        r := new Recyclable();
        total := total + 1;
      }
      r.next := null;
      used := used + {r};
    }

    /** `free_recyclable` of an object in use: back to the list, or deleted if it cannot be recycled. */
    method Free(r: Recyclable, recycled: bool)
      requires Valid() && r in used
      modifies this, r
      ensures Valid() && used == old(used) - {r}
      ensures if recycled then list == [r] + old(list) && total == old(total)
              else list == old(list) && total == old(total) - 1
      ensures usage == old(usage) && usageIdx == old(usageIdx)
    {
      used := used - {r};
      if recycled {
        Push(r);
        free := free + 1;
      } else {
        total := total - 1;
      }
    }

    /** Deletes free objects while there are more objects than `limit`. */
    method Shrink(limit: nat)
      requires Valid() && |used| <= limit
      modifies `freeList, `free, `total, `list
      ensures Valid() && unchanged(`used, `usage, `usageIdx)
      ensures total == if limit < old(total) then limit else old(total)
      ensures |list| <= |old(list)| && list == old(list)[|old(list)| - |list|..]
    {
      while limit < total
        invariant Valid() && unchanged(`used, `usage, `usageIdx)
        invariant total <= old(total) && (limit <= total || total == old(total))
        invariant |list| <= |old(list)| && list == old(list)[|old(list)| - |list|..]
        decreases total
      {
        if freeList == null { break; }
        var r := Pop();
        free := free - 1;
        total := total - 1;
      }
    }

    /**
     `collect_garbage`: records how many objects are in use and, every twelfth time or when told to,
     deletes free objects until no more are left than were ever in use at the last twelve records.
     */
    method CollectGarbage(force: bool)
      requires Valid()
      modifies this
      ensures Valid() && used == old(used)
      ensures usage == old(usage)[old(usageIdx) := |used|]
      ensures usageIdx == (old(usageIdx) + 1) % MAX_USAGE_SIZE
      ensures |list| <= |old(list)| && list == old(list)[|old(list)| - |list|..]
      ensures if force || usageIdx == 0 then total == (if MaxOf(usage) < old(total) then MaxOf(usage) else old(total))
              else total == old(total)
    {
      hide MaxOf, Nth;
      assert list[0..] == list;
      usage := usage[usageIdx := total - free];
      assert usage[usageIdx] <= MaxOf(usage);
      usageIdx := usageIdx + 1;
      var gc := force;
      if usageIdx >= MAX_USAGE_SIZE {
        gc := true;
        usageIdx := 0;
      }
      if gc {
        var limit := FindMax();
        Shrink(limit);
      }
    }

    /** The loop over the recorded usages. */
    method FindMax() returns (m: nat)
      ensures m == MaxOf(usage)
    {
      m := 0;
      var j := 0;
      while j < |usage|
        invariant 0 <= j <= |usage| && m == MaxOf(usage[..j])
      {
        assert usage[..j + 1][..j] == usage[..j];
        if m < usage[j] { m := usage[j]; }
        j := j + 1;
      }
      assert usage[..j] == usage;
    }
  }
}
