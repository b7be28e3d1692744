/**
 The address space of a process: its VMA list in the static pool (kernel/mm/vma.c) and stack
 growth (kernel/mm/demand.c).
 */
module Vma {
  import opened Arith
  import opened Bytes
  import opened Links
  import opened VmaList

  /** The pool: links, contents and the free list, which is threaded through `next`. */
  datatype Pool = Pool(next: seq<int>, prev: seq<int>, area: seq<Vma>, freeList: int)

  ghost function Areas(area: seq<Vma>, list: seq<nat>): (s: seq<Vma>)
    requires forall i | 0 <= i < |list| :: list[i] < |area|
    ensures |s| == |list| && forall i | 0 <= i < |s| :: s[i] == area[list[i]]
  {
    seq(|list|, i requires 0 <= i < |list| => area[list[i]])
  }

  /** The nodes of the list and of the free list, and nothing shared between them. */
  ghost predicate Linked(pool: Pool, vmas: int, list: seq<nat>, free: seq<nat>) {
    && |pool.area| == |pool.next|
    && IsList(pool.next, pool.prev, list) && vmas == First(list)
    && IsChain(pool.next, pool.freeList, free)
    && forall p: nat | p in list :: p !in free
  }

  lemma LinkedFacts(pool: Pool, vmas: int, list: seq<nat>, free: seq<nat>)
    requires Linked(pool, vmas, list, free)
    ensures |pool.prev| == |pool.next| == |pool.area| && Distinct(list)
    ensures forall i | 0 <= i < |list| :: list[i] < |pool.area|
    ensures forall i {:trigger pool.next[list[i]]} | 0 <= i < |list| ::
              pool.next[list[i]] == if i + 1 < |list| then list[i + 1] else NULL
    ensures forall i {:trigger pool.prev[list[i]]} | 0 <= i < |list| ::
              pool.prev[list[i]] == if 0 < i then list[i - 1] else NULL
  {
  }

  // ---- what the link updates do ----------------------------------------------------------------------

  function LinkIn(pool: Pool, list: seq<nat>, k: nat, p: nat): Pool
    requires p < |pool.next| == |pool.prev| && k <= |list| && forall i | 0 <= i < |list| :: list[i] < |pool.next|
  {
    pool.(next := LinkNext(pool.next, list, k, p), prev := LinkPrev(pool.prev, list, k, p))
  }

  lemma LinkInKeeps(pool: Pool, vmas: int, list: seq<nat>, free: seq<nat>, k: nat, p: nat)
    requires Linked(pool, vmas, list, free) && p < |pool.next| && p !in list && p !in free && k <= |list|
    ensures forall i | 0 <= i < |list| :: list[i] < |pool.next|
    ensures Linked(LinkIn(pool, list, k, p), if k > 0 then vmas else p, PutAt(list, k, p), free)
  {
    hide IsList, PutAt;
    ListFacts(pool.next, pool.prev, list);
    LinkKeeps(pool.next, pool.prev, list, k, p);
    LinkElsewhere(pool.next, pool.prev, list, k, p);
    forall i | 0 <= i < |free|
      ensures LinkNext(pool.next, list, k, p)[free[i]] == pool.next[free[i]]
    {
      assert free[i] in free;
    }
    SameChain(pool.next, LinkNext(pool.next, list, k, p), pool.freeList, free);
    forall q: nat | q in PutAt(list, k, p)
      ensures q !in free
    {
      PutMember(list, k, p, q);
    }
  }

  lemma PutMember<T>(s: seq<T>, k: nat, p: T, q: T)
    requires k <= |s|
    ensures q in PutAt(s, k, p) <==> q == p || q in s
  {
    assert s == s[..k] + s[k..];
  }

  lemma AreasPut(area: seq<Vma>, list: seq<nat>, k: nat, p: nat)
    requires (forall i | 0 <= i < |list| :: list[i] < |area|) && p < |area| && k <= |list|
    ensures forall i | 0 <= i <= |list| :: PutAt(list, k, p)[i] < |area|
    ensures Areas(area, PutAt(list, k, p)) == PutAt(Areas(area, list), k, area[p])
  {
  }

  lemma AreasDrop(area: seq<Vma>, list: seq<nat>, k: nat)
    requires (forall i | 0 <= i < |list| :: list[i] < |area|) && k < |list|
    ensures forall i | 0 <= i < |list| - 1 :: DropAt(list, k)[i] < |area|
    ensures Areas(area, DropAt(list, k)) == DropAt(Areas(area, list), k)
  {
  }

  lemma AreasSet(area: seq<Vma>, list: seq<nat>, k: nat, v: Vma)
    requires (forall i | 0 <= i < |list| :: list[i] < |area|) && k < |list| && Distinct(list)
    ensures Areas(area[list[k] := v], list) == Areas(area, list)[k := v]
  {
  }

  class AddressSpace {
    var pool: Pool
    var vmas: int
    var count: nat
    var stackStart: nat
    const mmapBase: nat
    ghost var list: seq<nat>
    ghost var free: seq<nat>

    constructor (size: nat, mmapBase: nat)
      requires size > 0
      ensures Valid() && View() == [] && |free| == size && this.mmapBase == mmapBase
    {
      this.mmapBase := mmapBase;
      pool := Pool(seq(size, i => if i + 1 < size then i + 1 else NULL), Fill(size, NULL),
                   Fill(size, Vma(0, 0, 0, -1, 0)), 0);
      vmas := NULL;
      count := 0;
      stackStart := 0;
      list := [];
      free := seq(size, i => i);
    }

    ghost predicate Valid()
      reads this
    {
      Linked(pool, vmas, list, free) && count == |list| && Sorted(Areas(pool.area, list))
    }

    /** The areas in address order. */
    ghost function View(): seq<Vma>
      requires Linked(pool, vmas, list, free)
      reads this
    {
      Areas(pool.area, list)
    }

    /** vma_create: an area from the pool, not yet in the list. */
    method Create(start: nat, end: nat, flags: nat) returns (p: int)
      requires Valid() && start < U32 && end < U32
      modifies `pool, `free
      ensures Valid() && View() == old(View()) && |pool.next| == |old(pool.next)|
      ensures p == NULL <==> start >= end || start % PAGE != 0 || end % PAGE != 0 || old(free) == []
      ensures p == NULL ==> pool == old(pool) && free == old(free)
      ensures p != NULL ==> 0 <= p < |pool.area| && p !in list && p !in free && old(free) == [p as nat] + free
      ensures p != NULL ==> pool.area[p] == Vma(start, end, flags, -1, 0) && Proper(pool.area[p])
    {
      hide IsList, Sorted;
      if start >= end || start % PAGE != 0 || end % PAGE != 0 {
        return NULL;
      }
      if pool.freeList == NULL {
        return NULL;
      }
      p := pool.freeList;
      PopFree(pool, vmas, list, free, Vma(start, end, flags, -1, 0));
      pool := pool.(freeList := pool.next[p], next := pool.next[p := NULL], prev := pool.prev[p := NULL],
                    area := pool.area[p := Vma(start, end, flags, -1, 0)]);
      free := free[1..];
    }

    /** vma_free: back on the free list. */
    method Free(p: nat)
      requires Linked(pool, vmas, list, free) && p < |pool.next| && p !in list && p !in free
      modifies `pool, `free
      ensures Linked(pool, vmas, list, free) && View() == old(View())
      ensures free == [p] + old(free) && |pool.next| == |old(pool.next)|
    {
      hide IsList, IsChain;
      PushFree(pool, vmas, list, free, p);
      pool := pool.(next := pool.next[p := pool.freeList], freeList := p);
      free := [p] + free;
    }

    // ---- searches -------------------------------------------------------------------------------

    /** vma_find: the area that contains the address. */
    method Find(addr: nat) returns (p: int, ghost k: nat)
      requires Valid()
      ensures p == NULL ==> forall i | 0 <= i < |View()| :: !Contains(View()[i], addr)
      ensures p != NULL ==> k < |list| && list[k] == p && Contains(View()[k], addr)
    {
      hide IsList, IsChain, Sorted;
      LinkedFacts(pool, vmas, list, free);
      p, k := vmas, 0;
      while p != NULL
        invariant k <= |list| && p == if k < |list| then list[k] else NULL
        invariant forall i | 0 <= i < k :: !Contains(View()[i], addr)
        decreases |list| - k
      {
        if addr >= pool.area[p].start && addr < pool.area[p].end {
          return;
        }
        p, k := pool.next[p], k + 1;
      }
    }

    /** vma_find_nearest: the first area that ends after the address. */
    method FindNearest(addr: nat) returns (nearest: int, ghost k: nat)
      requires Valid()
      ensures nearest == NULL ==> forall i | 0 <= i < |View()| :: View()[i].end <= addr
      ensures nearest != NULL ==> k < |list| && list[k] == nearest && addr < View()[k].end
      ensures nearest != NULL ==> forall i | 0 <= i < k :: View()[i].end <= addr
    {
      hide IsList, IsChain;
      LinkedFacts(pool, vmas, list, free);
      nearest, k := NULL, 0;
      var p := vmas;
      ghost var n := 0;
      while p != NULL
        invariant n <= |list| && p == if n < |list| then list[n] else NULL
        invariant nearest == NULL ==> forall i | 0 <= i < n :: View()[i].end <= addr
        invariant nearest != NULL ==> k < n && list[k] == nearest && addr < View()[k].end
        invariant nearest != NULL ==> forall i | 0 <= i < k :: View()[i].end <= addr
        decreases |list| - n
      {
        assert nearest != NULL ==> View()[k].start < View()[n].start;
        if addr < pool.area[p].end {
          if nearest == NULL || pool.area[p].start < pool.area[nearest].start {
            nearest, k := p, n;
          }
        }
        p, n := pool.next[p], n + 1;
      }
    }

    /** find_free_region, in 32-bit arithmetic. */
    method FindFreeRegion(size: nat) returns (addr: nat)
      requires Valid() && mmapBase < U32 && size < U32
      ensures addr == FreeFrom(View(), mmapBase, size, 0)
    {
      hide IsList, IsChain, Sorted;
      LinkedFacts(pool, vmas, list, free);
      addr := mmapBase;
      var p := vmas;
      ghost var k := 0;
      while p != NULL
        invariant k <= |list| && p == if k < |list| then list[k] else NULL
        invariant addr == Candidate(View(), mmapBase, k)
        invariant FreeFrom(View(), mmapBase, size, 0) == FreeFrom(View(), mmapBase, size, k)
        decreases |list| - k
      {
        if (addr + size) % U32 <= pool.area[p].start {
          return;
        }
        if pool.area[p].end > addr {
          addr := pool.area[p].end;
        }
        p, k := pool.next[p], k + 1;
      }
      if (addr + size) % U32 > KERNEL_BASE {
        addr := 0;
      }
    }

    // ---- changing the list ----------------------------------------------------------------------

    /** Where an area that starts at `start` belongs. */
    method FindPlace(start: nat) returns (prev: int, curr: int, ghost k: nat)
      requires Valid()
      ensures k <= |list| && Place(View(), k, start)
      ensures prev == (if k > 0 then list[k - 1] else NULL) && curr == (if k < |list| then list[k] else NULL)
      ensures k == PlaceOf(View(), start) && curr == NodeAt(list, PlaceOf(View(), start))
    {
      hide IsList, IsChain, Sorted;
      LinkedFacts(pool, vmas, list, free);
      prev, curr, k := NULL, vmas, 0;
      while curr != NULL && pool.area[curr].start < start
        invariant k <= |list| && curr == (if k < |list| then list[k] else NULL)
        invariant prev == (if k > 0 then list[k - 1] else NULL)
        invariant forall i | 0 <= i < k :: View()[i].start < start
        decreases |list| - k
      {
        prev, curr, k := curr, pool.next[curr], k + 1;
      }
      PlaceUnique(View(), k, start);
    }

    /** vma_insert: refuses exactly when the new area overlaps one that is there. */
    method Insert(p: nat) returns (r: int, ghost k: nat)
      requires Valid() && p < |pool.area| && p !in list && p !in free && Proper(pool.area[p])
      modifies `pool, `vmas, `count, `list
      ensures Valid() && (r == 0 || r == -1) && |pool.next| == |old(pool.next)|
      ensures r == -1 <==> exists i :: 0 <= i < |old(View())| && Overlap(old(View())[i], pool.area[p])
      ensures r == -1 ==> pool == old(pool) && list == old(list)
      ensures r == 0 ==> k <= |old(list)| && list == PutAt(old(list), k, p) && pool.area == old(pool.area)
      ensures r == 0 ==> View() == PutAt(old(View()), k, pool.area[p])
    {
      hide IsList, IsChain, LinkNext, LinkPrev, Sorted, PutAt, Clash, Overlap, Proper, Place;
      LinkedFacts(pool, vmas, list, free);
      var v := pool.area[p];
      if vmas == NULL {
        k := 0;
        LinkInKeeps(pool, vmas, list, free, 0, p);
        FirstInsert(pool, list, p);
        AreasPut(pool.area, list, 0, p);
        ClashIsOverlap(View(), 0, v);
        InsertSorted(View(), 0, v);
        vmas := p;
        pool := pool.(next := pool.next[p := NULL], prev := pool.prev[p := NULL]);
        count := 1;
        list := PutAt(list, 0, p);
        return 0, 0;
      }
      var prev, curr;
      prev, curr, k := FindPlace(v.start);
      ClashIsOverlap(View(), k, v);
      if prev != NULL && pool.area[prev].end > v.start {
        ClashHere(View(), k, v);
        return -1, k;
      }
      if curr != NULL && v.end > pool.area[curr].start {
        ClashHere(View(), k, v);
        return -1, k;
      }
      ClashHere(View(), k, v);
      LinkInKeeps(pool, vmas, list, free, k, p);
      LinkInCode(pool, list, k, p);
      AreasPut(pool.area, list, k, p);
      InsertSorted(View(), k, v);
      pool := pool.(prev := pool.prev[p := prev], next := pool.next[p := curr]);
      if prev != NULL {
        pool := pool.(next := pool.next[prev := p]);
      } else {
        vmas := p;
      }
      if curr != NULL {
        pool := pool.(prev := pool.prev[curr := p]);
      }
      count := count + 1;
      list := PutAt(list, k, p);
      r := 0;
    }

    /** vma_remove, for node number `k` of the list. */
    method Remove(p: nat, ghost k: nat)
      requires Valid() && k < |list| && list[k] == p
      modifies `pool, `vmas, `count, `list
      ensures Valid() && list == DropAt(old(list), k) && View() == DropAt(old(View()), k)
      ensures p < |pool.next| == |old(pool.next)| && p !in list && p !in free
    {
      hide IsList, IsChain, DropAt, Sorted;
      UnlinkCode(pool, vmas, list, free, k);
      AreasDrop(pool.area, list, k);
      DropSorted(View(), k);
      if pool.prev[p] != NULL {
        pool := pool.(next := pool.next[pool.prev[p] := pool.next[p]]);
      } else {
        vmas := pool.next[p];
      }
      if pool.next[p] != NULL {
        pool := pool.(prev := pool.prev[pool.next[p] := pool.prev[p]]);
      }
      count := count - 1;
      pool := pool.(next := pool.next[p := NULL], prev := pool.prev[p := NULL]);
      list := DropAt(list, k);
    }

    /** Node number `k` absorbs the next one, which goes back to the pool. */
    method Absorb(ghost k: nat, u: nat)
      requires Valid() && k + 1 < |list| && list[k] == u && Mergeable(View()[k], View()[k + 1])
      modifies `pool, `count, `list, `free
      ensures Valid() && list == DropAt(old(list), k + 1) && View() == Joined(old(View()), k)
      ensures |pool.next| == |old(pool.next)|
    {
      hide IsList, IsChain, DropAt, Sorted, Joined, Mergeable;
      LinkedFacts(pool, vmas, list, free);
      var v := pool.next[u];
      AbsorbCode(pool, vmas, list, free, k);
      JoinedSorted(View(), k);
      pool := pool.(area := pool.area[u := pool.area[u].(end := pool.area[v].end)],
                    next := pool.next[u := pool.next[v]]);
      if pool.next[v] != NULL {
        pool := pool.(prev := pool.prev[pool.next[v] := u]);
      }
      count := count - 1;
      list := DropAt(list, k + 1);
      Free(v);
    }

    /** vma_merge, for node number `k` of the list: how many neighbours were merged with it. */
    method Merge(vma: nat, ghost k: nat) returns (merged: nat)
      requires Valid() && k < |list| && list[k] == vma
      modifies `pool, `count, `list, `free
      ensures Valid() && |list| == |old(list)| - merged
      ensures View() == MergedView(old(View()), k)
    {
      hide IsList, IsChain, DropAt, Sorted, Joined, Linked, Areas;
      LinkedFacts(pool, vmas, list, free);
      merged := 0;
      var v := vma;
      ghost var i := k;
      var prev := pool.prev[v];
      if prev != NULL && pool.area[prev].end == pool.area[v].start
         && pool.area[prev].flags == pool.area[v].flags && pool.area[prev].fd == pool.area[v].fd {
        Absorb(k - 1, prev);
        v := prev;
        i := k - 1;
        merged := merged + 1;
      }
      LinkedFacts(pool, vmas, list, free);
      var next := pool.next[v];
      if next != NULL && pool.area[v].end == pool.area[next].start
         && pool.area[v].flags == pool.area[next].flags && pool.area[v].fd == pool.area[next].fd {
        Absorb(i, v);
        merged := merged + 1;
      }
    }

    // ---- system calls -----------------------------------------------------------------------------

    /** The list effect of sys_mmap; -1 is MAP_FAILED. */
    method Mmap(addr: nat, length: nat, prot: nat, flags: nat, fd: int, offset: nat) returns (r: int, ghost k: nat)
      requires Valid() && addr < U32 && length < U32 && mmapBase < U32
      modifies `pool, `vmas, `count, `list, `free
      ensures Valid()
      ensures r == -1 ==> View() == old(View())
      ensures r == -1 <==> !CanMap(old(View()), mmapBase, addr, length, flags, fd, old(free) != [])
      ensures r != -1 ==> r == MapAddress(old(View()), mmapBase, addr, length, flags) && k <= |old(View())|
      ensures r != -1 ==> View() == PutAt(old(View()), k, Vma(r, r + RoundUp(length), VmFlags(prot, flags), fd, offset))
      ensures r != -1 ==> (UserSpace(View()) <==> old(UserSpace(View())) && r + RoundUp(length) <= KERNEL_BASE)
      ensures r != -1 && !Fixed(flags) && old(UserSpace(View())) ==> UserSpace(View())
    {
      hide IsList, IsChain, Sorted, Linked, PutAt, Areas, FreeFrom, Overlap, VmFlags, Fixed, Anonymous, UserSpace;
      k := 0;
      var size := RoundUp(length);
      if size == 0 {
        return -1, k;
      }
      var at: nat;
      if Fixed(flags) {
        at := PageOf(addr);
        if at < 0x1000 || at >= KERNEL_BASE {
          return -1, k;
        }
      } else {
        at := FindFreeRegion(size);
        FreeBound(View(), mmapBase, size, 0);
        if at == 0 {
          return -1, k;
        }
      }
      if !Anonymous(flags) && fd < 0 {
        return -1, k;
      }
      StaysUser(View(), mmapBase, addr, length, flags);
      r, k := MapAt(at, size, VmFlags(prot, flags), fd, offset);
      if r != -1 {
        PutUser(old(View()), k, Vma(at, at + size, VmFlags(prot, flags), fd, offset));
      }
    }

    /** The end of sys_mmap: create the area and insert it. */
    method MapAt(at: nat, size: nat, flags: nat, fd: int, offset: nat) returns (r: int, ghost k: nat)
      requires Valid() && 0 < size < U32 && at < U32 && size % PAGE == 0
      modifies `pool, `vmas, `count, `list, `free
      ensures Valid()
      ensures r == -1 ==> View() == old(View())
      ensures r == -1 <==> at % PAGE != 0 || at + size >= U32 || old(free) == [] || Taken(old(View()), at, size)
      ensures r != -1 ==> r == at && k <= |old(View())|
      ensures r != -1 ==> View() == PutAt(old(View()), k, Vma(at, at + size, flags, fd, offset))
    {
      hide IsList, IsChain, Sorted, PutAt;
      k := 0;
      EndOf(at, size);
      var p := Create(at, (at + size) % U32, flags);
      if p == NULL {
        return -1, k;
      }
      LinkedFacts(pool, vmas, list, free);
      Unlisted(pool, list, p, pool.next[p], pool.prev[p], pool.area[p].(fd := fd, offset := offset));
      pool := pool.(area := pool.area[p := pool.area[p].(fd := fd, offset := offset)]);
      var ok;
      ok, k := Insert(p);
      TakenIs(old(View()), at, size, pool.area[p]);
      if ok < 0 {
        Free(p);
        return -1, k;
      }
      r := at;
    }

    /** The list effect of sys_munmap: areas inside the range go, areas that stick out of it stay. */
    method Munmap(addr: nat, length: nat)
      requires Valid() && addr < U32 && length < U32
      modifies `pool, `vmas, `count, `list, `free
      ensures Valid()
      ensures View() == Outside(old(View()), PageOf(addr), EndAfter(PageOf(addr), length))
      ensures forall v :: v in View() <==> v in old(View()) && !Unmaps(v, PageOf(addr), length)
    {
      hide IsList, IsChain, Sorted, DropAt, Linked, Outside, Areas, Inside, PageOf, EndAfter, Unmapping, NodeAt;
      var start := PageOf(addr);
      var end := EndAfter(start, length);
      ghost var s := View();
      ghost var i: nat, j: nat := 0, 0;
      var p := vmas;
      LinkedHead(pool, vmas, list, free);
      assert p == NodeAt(list, 0) by { HeadNode(list); }
      UnmappingStart(s, start, end);
      while p != NULL
        invariant Valid() && i <= |s| && Unmapping(View(), s, i, j, start, end)
        invariant j <= |list| && p == NodeAt(list, j)
        decreases |s| - i
      {
        NodeFacts(pool, vmas, list, free, j);
        var next := pool.next[p];
        UnmappingStep(View(), s, i, j, start, end);
        var removed := UnmapOne(p, j, start, end);
        if !removed {
          j := j + 1;
        }
        p, i := next, i + 1;
      }
      NoNode(list, j);
      UnmappingEnd(View(), s, i, j, start, end);
      OutsideUnmaps(s, addr, length);
    }

    /** The loop body of sys_munmap on node number `k`: an area inside the range is removed and destroyed. */
    method UnmapOne(p: nat, ghost k: nat, start: nat, end: nat) returns (removed: bool)
      requires Valid() && k < |list| && list[k] == p
      modifies `pool, `vmas, `count, `list, `free
      ensures Valid() && removed == Inside(old(View())[k], start, end)
      ensures !removed ==> list == old(list) && View() == old(View())
      ensures removed ==> list == DropAt(old(list), k) && View() == DropAt(old(View()), k)
    {
      hide IsList, IsChain, Sorted, DropAt;
      LinkedFacts(pool, vmas, list, free);
      removed := false;
      if pool.area[p].end <= start || pool.area[p].start >= end {
        return;
      }
      // A partial overlap would need the area to be split, which the kernel does not do.
      if pool.area[p].start >= start && pool.area[p].end <= end {
        Remove(p, k);
        Free(p);
        removed := true;
      }
    }

    // ---- page faults --------------------------------------------------------------------------------

    /** handle_stack_growth on area number `k`; mapping the new page may fail, the area has grown all the same. */
    method StackGrowth(p: nat, ghost k: nat, addr: nat) returns (ok: bool)
      requires Valid() && k < |list| && list[k] == p && forall i | 0 <= i < k :: View()[i].end <= addr
      modifies `pool, `stackStart
      ensures Valid() && list == old(list)
      ensures old(View())[k].start - PAGE <= addr < old(View())[k].start ==>
                old(View())[k].start >= PAGE && View() == Grown(old(View()), k) && stackStart == View()[k].start
      ensures !(old(View())[k].start - PAGE <= addr < old(View())[k].start) ==>
                !ok && View() == old(View()) && stackStart == old(stackStart)
    {
      hide IsList, IsChain, Sorted;
      LinkedFacts(pool, vmas, list, free);
      if addr < pool.area[p].start && addr >= pool.area[p].start - PAGE {
        GrowSorted(View(), k, addr);
        AreasSet(pool.area, list, k, pool.area[p].(start := pool.area[p].start - PAGE));
        pool := pool.(area := pool.area[p := pool.area[p].(start := pool.area[p].start - PAGE)]);
        stackStart := pool.area[p].start;
        var mapped: bool := *;
        return mapped;
      }
      ok := false;
    }

    /**
     handle_page_fault for an address that is neither swapped out nor copy-on-write.
     An area changes only by a stack growing by one page.
     */
    method Fault(addr: nat, write: bool, user: bool) returns (result: PfResult, ghost grown: bool, ghost k: nat)
      requires Valid()
      modifies `pool, `stackStart
      ensures Valid()
      ensures !grown ==> View() == old(View())
      ensures grown ==> k < |old(View())| && old(View())[k].start >= PAGE && View() == Grown(old(View()), k)
      ensures grown ==> StackAbove(old(View()), k, addr)
      ensures grown <==> At(old(View()), addr) == Unmapped
                         && exists j: nat :: j < |old(View())| && StackAbove(old(View()), j, addr)
      ensures var m := At(old(View()), addr);
              if m.Mapped? then result == Segv <==> Denied(m.flags, write, user)
              else result == Segv || (result == Handled && grown)
    {
      hide IsList, IsChain, Sorted, Linked, Areas, At, TestBit;
      grown, k := false, 0;
      var p, i := Find(addr);
      AtNone(View(), addr);
      LinkedFacts(pool, vmas, list, free);
      if p != NULL {
        AtFound(View(), i, addr);
        if Denied(pool.area[p].flags, write, user) {
          return Segv, false, 0;
        }
        var paged: bool := *;
        return (if paged then Handled else Oom), false, 0;
      }
      var q;
      q, k := FindNearest(addr);
      if q == NULL {
        NoStackAbove(View(), addr);
        return Segv, false, 0;
      }
      result := Segv;
      OneStackAbove(View(), k, addr);
      if IsStack(pool.area[q].flags) {
        grown := StackAbove(View(), k, addr);
        NearestIs(View(), k, addr);
        var ok := StackGrowth(q, k, addr);
        if ok {
          result := Handled;
        }
      }
    }
  }

  // ---- flags ---------------------------------------------------------------------------------------

  datatype PfResult = Handled | Segv | Oom

  // Bit numbers of the VM_ flags.
  const READ: nat := 0
  const WRITE: nat := 1
  const EXEC: nat := 2
  const SHARED: nat := 3
  const PRIVATE: nat := 4
  const ANONYMOUS: nat := 5
  const FILE: nat := 6
  const LAZY: nat := 7
  const LOCKED: nat := 8
  const GROWSDOWN: nat := 9
  const STACK: nat := 11

  predicate Fixed(flags: nat) {
    TestBit(flags, 4)
  }

  predicate Anonymous(flags: nat) {
    TestBit(flags, 5)
  }

  function Or(f: nat, cond: bool, bit: nat): nat {
    if cond then SetBit(f, bit) else f
  }

  /** The area flags sys_mmap derives from its protection and mapping bits. */
  function VmFlags(prot: nat, flags: nat): nat {
    var f := SetBit(0, LAZY);
    var f := Or(Or(Or(f, TestBit(prot, 0), READ), TestBit(prot, 1), WRITE), TestBit(prot, 2), EXEC);
    var f := Or(Or(Or(f, TestBit(flags, 0), SHARED), TestBit(flags, 1), PRIVATE), Anonymous(flags), ANONYMOUS);
    var f := Or(Or(Or(f, TestBit(flags, 9), LOCKED), TestBit(flags, 10), STACK), TestBit(flags, 10), GROWSDOWN);
    Or(f, !Anonymous(flags), FILE)
  }

  lemma OrTest(f: nat, cond: bool, bit: nat, i: nat)
    ensures TestBit(Or(f, cond, bit), i) <==> (cond && i == bit) || TestBit(f, i)
  {
    SetBitTest(f, bit, i);
  }

  /** Which flags an area gets: always lazy, anonymous or file-backed but not both, a stack if asked for. */
  lemma VmFlagsMean(prot: nat, flags: nat, i: nat)
    ensures TestBit(VmFlags(prot, flags), i) <==>
            (|| i == LAZY
             || (i <= EXEC && TestBit(prot, i))
             || (i == SHARED && TestBit(flags, 0)) || (i == PRIVATE && TestBit(flags, 1))
             || (i == ANONYMOUS && Anonymous(flags)) || (i == FILE && !Anonymous(flags))
             || (i == LOCKED && TestBit(flags, 9))
             || ((i == STACK || i == GROWSDOWN) && TestBit(flags, 10)))
  {
    hide TestBit, SetBit, Or, Anonymous;
    var f0 := SetBit(0, LAZY);
    NoBits(i);
    SetBitTest(0, LAZY, i);
    var f1 := Or(f0, TestBit(prot, 0), READ);
    var f2 := Or(f1, TestBit(prot, 1), WRITE);
    var f3 := Or(f2, TestBit(prot, 2), EXEC);
    var f4 := Or(f3, TestBit(flags, 0), SHARED);
    var f5 := Or(f4, TestBit(flags, 1), PRIVATE);
    var f6 := Or(f5, Anonymous(flags), ANONYMOUS);
    var f7 := Or(f6, TestBit(flags, 9), LOCKED);
    var f8 := Or(f7, TestBit(flags, 10), STACK);
    var f9 := Or(f8, TestBit(flags, 10), GROWSDOWN);
    OrTest(f0, TestBit(prot, 0), READ, i);
    OrTest(f1, TestBit(prot, 1), WRITE, i);
    OrTest(f2, TestBit(prot, 2), EXEC, i);
    OrTest(f3, TestBit(flags, 0), SHARED, i);
    OrTest(f4, TestBit(flags, 1), PRIVATE, i);
    OrTest(f5, Anonymous(flags), ANONYMOUS, i);
    OrTest(f6, TestBit(flags, 9), LOCKED, i);
    OrTest(f7, TestBit(flags, 10), STACK, i);
    OrTest(f8, TestBit(flags, 10), GROWSDOWN, i);
    OrTest(f9, !Anonymous(flags), FILE, i);
  }

  /** The access an area does not allow. */
  predicate Denied(flags: nat, write: bool, user: bool) {
    || (write && !TestBit(flags, WRITE))
    || (user && !TestBit(flags, READ) && !TestBit(flags, WRITE) && !TestBit(flags, EXEC))
  }

  predicate IsStack(flags: nat) {
    TestBit(flags, STACK)
  }

  /** Area `k` is the first that ends after the address, is a stack, and starts in the next page. */
  ghost predicate StackAbove(s: seq<Vma>, k: nat, addr: nat)
    requires k < |s|
  {
    && IsStack(s[k].flags) && s[k].start - PAGE <= addr < s[k].start
    && forall i | 0 <= i < k :: s[i].end <= addr
  }

  /** The only candidate is the first area that ends after the address. */
  lemma OneStackAbove(s: seq<Vma>, k: nat, addr: nat)
    requires Sorted(s) && k < |s| && addr < s[k].end && forall i | 0 <= i < k :: s[i].end <= addr
    ensures forall j: nat :: j < |s| && StackAbove(s, j, addr) ==> j == k
  {
  }

  lemma NoStackAbove(s: seq<Vma>, addr: nat)
    requires Sorted(s) && forall i | 0 <= i < |s| :: s[i].end <= addr
    ensures forall j: nat :: j < |s| ==> !StackAbove(s, j, addr)
  {
  }

  lemma NearestIs(s: seq<Vma>, k: nat, addr: nat)
    requires k < |s| && (forall i | 0 <= i < k :: s[i].end <= addr) && IsStack(s[k].flags)
    ensures StackAbove(s, k, addr) <==> s[k].start - PAGE <= addr < s[k].start
  {
  }

  /** A length rounded up to whole pages, in 32-bit arithmetic. */
  function RoundUp(length: nat): (r: nat)
    ensures r % PAGE == 0 && r < U32
  {
    (length + PAGE - 1) % U32 / PAGE * PAGE
  }

  /** The start of the page of an address. */
  function PageOf(addr: nat): nat {
    addr / PAGE * PAGE
  }

  /** The end of an unmapped range, in 32-bit arithmetic. */
  function EndAfter(start: nat, length: nat): nat {
    (start + RoundUp(length)) % U32
  }

  /** The rounded length is the least whole number of pages that holds it; close to 2^32 it wraps to nothing. */
  lemma RoundUpLeast(length: nat)
    requires length < U32
    ensures length + PAGE - 1 < U32 ==>
              length <= RoundUp(length) && forall m: nat | m % PAGE == 0 && length <= m :: RoundUp(length) <= m
    ensures length + PAGE - 1 >= U32 ==> RoundUp(length) == 0
  {
    if length + PAGE - 1 < U32 {
      forall m: nat | m % PAGE == 0 && length <= m
        ensures RoundUp(length) <= m
      {
        assert m == m / PAGE * PAGE;
      }
    }
  }

  /** The page of an address starts at the greatest multiple of the page size not above it. */
  lemma PageOfGreatest(addr: nat)
    ensures PageOf(addr) <= addr && PageOf(addr) % PAGE == 0
    ensures forall m: nat | m % PAGE == 0 && m <= addr :: m <= PageOf(addr)
  {
  }

  /**
   An area that sys_munmap takes out: from the start of the range on, and every page of it with
   a byte in the range.
   */
  ghost predicate Unmaps(v: Vma, start: nat, length: nat) {
    && start + length + PAGE - 1 < U32 && start <= v.start
    && forall p: nat | Contains(v, p) && p % PAGE == 0 :: start < p + PAGE && p < start + length
  }

  /** The rounded range takes out exactly those areas, and none when its end wraps. */
  lemma UnmapsExact(v: Vma, addr: nat, length: nat)
    requires Proper(v) && addr < U32 && length < U32
    ensures Inside(v, PageOf(addr), EndAfter(PageOf(addr), length)) <==> Unmaps(v, PageOf(addr), length)
  {
    hide PageOf, EndAfter;
    var start := PageOf(addr);
    PageOfGreatest(addr);
    if start + length + PAGE - 1 < U32 {
      RangeEnd(start, length);
      var end := EndAfter(start, length);
      var last := v.end - PAGE;
      assert last >= v.start && last % PAGE == 0 && Contains(v, last);
      forall p: nat | Contains(v, p) && p % PAGE == 0
        ensures p <= last
      {
        MultiplesApart(p, v.end);
      }
      if last < start + length { MultiplesApart(last, end); }
    } else {
      RangeWraps(start, length);
    }
  }

  /** Two page addresses that differ are a page apart. */
  lemma MultiplesApart(p: nat, q: nat)
    requires p % PAGE == 0 && q % PAGE == 0 && p < q
    ensures p + PAGE <= q
  {
  }

  lemma RangeEnd(start: nat, length: nat)
    requires start % PAGE == 0 && start + length + PAGE - 1 < U32
    ensures var end := EndAfter(start, length); start + length <= end < start + length + PAGE && end % PAGE == 0
  {
  }

  lemma RangeWraps(start: nat, length: nat)
    requires start % PAGE == 0 && start < U32 && length < U32 && start + length + PAGE - 1 >= U32
    ensures EndAfter(start, length) <= start
  {
    assert U32 % PAGE == 0;
    if length + PAGE - 1 < U32 {
      assert start + RoundUp(length) >= U32;
    }
  }

  /** Three gigabytes from 1 GiB on wrap to an empty range: no area is unmapped. */
  lemma UnmapsExample(v: Vma)
    requires Proper(v)
    ensures EndAfter(0x4000_0000, 0xC000_0000) == 0 && !Inside(v, 0x4000_0000, 0)
  {
  }

  lemma {:induction false} OutsideIs(s: seq<Vma>, start: nat, end: nat, v: Vma)
    ensures v in Outside(s, start, end) <==> v in s && !Inside(v, start, end)
  {
    if s != [] {
      assert s == s[..|s| - 1] + [s[|s| - 1]];
      OutsideIs(s[..|s| - 1], start, end, v);
    }
  }

  lemma OutsideUnmaps(s: seq<Vma>, addr: nat, length: nat)
    requires Sorted(s) && addr < U32 && length < U32
    ensures forall v :: v in Outside(s, PageOf(addr), EndAfter(PageOf(addr), length)) <==>
                          v in s && !Unmaps(v, PageOf(addr), length)
  {
    hide Outside, PageOf, EndAfter, Inside, Unmaps;
    forall v
      ensures v in Outside(s, PageOf(addr), EndAfter(PageOf(addr), length)) <==>
                v in s && !Unmaps(v, PageOf(addr), length)
    {
      OutsideIs(s, PageOf(addr), EndAfter(PageOf(addr), length), v);
      if v in s { UnmapsExact(v, addr, length); }
    }
  }

  /** MAP_FIXED is 0x10 and MAP_ANONYMOUS is 0x20. */
  lemma MapBits(flags: nat)
    ensures Fixed(flags) <==> flags / 0x10 % 2 == 1
    ensures Anonymous(flags) <==> flags / 0x20 % 2 == 1
  {
    hide TestBit;
    BitValue(flags, 4);
    BitValue(flags, 5);
    assert Pow2(4) == 0x10 && Pow2(5) == 0x20;
  }

  /** In an area made by sys_mmap a write needs PROT_WRITE, and a user access any of the three protection bits. */
  lemma DeniedMeans(prot: nat, flags: nat, write: bool, user: bool)
    ensures Denied(VmFlags(prot, flags), write, user) <==>
            (write && prot / 2 % 2 == 0) || (user && prot % 8 == 0)
  {
    hide TestBit, VmFlags;
    VmFlagsMean(prot, flags, READ);
    VmFlagsMean(prot, flags, WRITE);
    VmFlagsMean(prot, flags, EXEC);
    BitValue(prot, 0);
    BitValue(prot, 1);
    BitValue(prot, 2);
    assert Pow2(1) == 2 && Pow2(2) == 4;
    LowBits(prot);
  }

  /** A stack has flag 0x800, and sys_mmap makes one exactly for MAP_STACK, 0x400. */
  lemma StackMeans(vmFlags: nat, prot: nat, flags: nat)
    ensures IsStack(vmFlags) <==> vmFlags / 0x800 % 2 == 1
    ensures IsStack(VmFlags(prot, flags)) <==> flags / 0x400 % 2 == 1
  {
    hide TestBit, VmFlags;
    VmFlagsMean(prot, flags, STACK);
    BitValue(vmFlags, 11);
    BitValue(flags, 10);
    assert Pow2(10) == 0x400 && Pow2(11) == 0x800;
  }

  lemma LowBits(x: nat)
    ensures x % 8 == 0 <==> x % 2 == 0 && x / 2 % 2 == 0 && x / 4 % 2 == 0
  {
    Halved(x, 2);
    var y := x / 2;
    var z := y / 2;
    assert x == Join(z / 2, 4 * (z % 2) + 2 * (y % 2) + x % 2, 8);
    JoinParts(z / 2, 4 * (z % 2) + 2 * (y % 2) + x % 2, 8);
  }

  /** The address sys_mmap decides on. */
  function MapAddress(s: seq<Vma>, base: nat, addr: nat, length: nat, flags: nat): nat {
    if Fixed(flags) then PageOf(addr) else FreeFrom(s, base, RoundUp(length), 0)
  }

  ghost predicate Taken(s: seq<Vma>, at: nat, size: nat) {
    exists i :: 0 <= i < |s| && s[i].start < at + size && at < s[i].end
  }

  /** When sys_mmap succeeds. */
  ghost predicate CanMap(s: seq<Vma>, base: nat, addr: nat, length: nat, flags: nat, fd: int, room: bool) {
    var size := RoundUp(length);
    var at := MapAddress(s, base, addr, length, flags);
    && size > 0 && (Fixed(flags) ==> 0x1000 <= at < KERNEL_BASE) && (!Fixed(flags) ==> at != 0)
    && (Anonymous(flags) || fd >= 0) && room
    && at % PAGE == 0 && at + size < U32 && !Taken(s, at, size)
  }

  /**
   Without a fixed address, a free area and a valid descriptor given, a request succeeds exactly
   when some gap fits.
   */
  lemma MmapFindsGap(s: seq<Vma>, base: nat, addr: nat, length: nat, flags: nat, fd: int)
    requires Sorted(s) && UserSpace(s) && 0 < base && base % PAGE == 0
    requires !Fixed(flags) && (Anonymous(flags) || fd >= 0) && RoundUp(length) > 0
    ensures CanMap(s, base, addr, length, flags, fd, true) <==> exists a: nat :: Fits(s, base, RoundUp(length), a)
    ensures forall a: nat | Fits(s, base, RoundUp(length), a) :: MapAddress(s, base, addr, length, flags) <= a
  {
    hide Sorted, UserSpace, FreeFrom, RoundUp, Fits, Taken;
    var size := RoundUp(length);
    var at := FreeFrom(s, base, size, 0);
    FreeAligned(s, base, size, 0);
    FreeFits(s, base, size, 0);
    forall a: nat | Fits(s, base, size, a)
      ensures at <= a && Fits(s, base, size, at)
    {
      FreeLeast(s, base, size, 0, a);
    }
    FitsFree(s, base, size, at);
  }

  lemma FitsFree(s: seq<Vma>, base: nat, size: nat, a: nat)
    ensures Fits(s, base, size, a) ==> base <= a && a + size <= KERNEL_BASE && !Taken(s, a, size)
  {
  }

  /** A list stays below the kernel exactly when the new area does. */
  lemma PutUser(s: seq<Vma>, k: nat, v: Vma)
    requires k <= |s|
    ensures UserSpace(PutAt(s, k, v)) <==> UserSpace(s) && v.end <= KERNEL_BASE
  {
    var t := PutAt(s, k, v);
    assert forall i | 0 <= i < |s| :: s[i] == t[if i < k then i else i + 1];
  }

  /** The address found without MAP_FIXED ends below the kernel if the call succeeds. */
  lemma StaysUser(s: seq<Vma>, base: nat, addr: nat, length: nat, flags: nat)
    requires Sorted(s)
    ensures UserSpace(s) && !Fixed(flags) && MapAddress(s, base, addr, length, flags) != 0 ==>
              var end := MapAddress(s, base, addr, length, flags) + RoundUp(length); end < U32 ==> end <= KERNEL_BASE
  {
    hide Sorted, UserSpace, FreeFrom, RoundUp;
    if UserSpace(s) { FreeFits(s, base, RoundUp(length), 0); }
  }

  lemma EndOf(at: nat, size: nat)
    requires at < U32 && 0 < size < U32 && size % PAGE == 0
    ensures at + size < U32 ==> (at + size) % U32 == at + size
    ensures at + size >= U32 ==> (at + size) % U32 < at
    ensures at % PAGE == 0 ==> (at + size) % U32 % PAGE == 0
  {
    assert U32 % PAGE == 0;
  }

  lemma TakenIs(s: seq<Vma>, at: nat, size: nat, v: Vma)
    requires v.start == at && v.end == at + size
    ensures Taken(s, at, size) <==> exists i :: 0 <= i < |s| && Overlap(s[i], v)
  {
    if Taken(s, at, size) {
      var i :| 0 <= i < |s| && s[i].start < at + size && at < s[i].end;
      assert Overlap(s[i], v);
    }
    if exists i :: 0 <= i < |s| && Overlap(s[i], v) {
      var i :| 0 <= i < |s| && Overlap(s[i], v);
      assert s[i].start < at + size && at < s[i].end;
    }
  }

  lemma LinkedHead(pool: Pool, vmas: int, list: seq<nat>, free: seq<nat>)
    requires Linked(pool, vmas, list, free)
    ensures vmas == First(list)
  {
  }

  /** The list while the first `i` areas of `s` have been looked at and `j` of them kept. */
  ghost predicate Unmapping(view: seq<Vma>, s: seq<Vma>, i: nat, j: nat, start: nat, end: nat)
    requires i <= |s|
  {
    j == |Outside(s[..i], start, end)| && view == Outside(s[..i], start, end) + s[i..]
  }

  lemma UnmappingStart(s: seq<Vma>, start: nat, end: nat)
    ensures Unmapping(s, s, 0, 0, start, end)
  {
    assert s[..0] == [] && [] + s[0..] == s;
  }

  lemma UnmappingStep(view: seq<Vma>, s: seq<Vma>, i: nat, j: nat, start: nat, end: nat)
    requires i <= |s| && j < |view| && Unmapping(view, s, i, j, start, end)
    ensures i < |s|
    ensures Inside(view[j], start, end) ==> Unmapping(DropAt(view, j), s, i + 1, j, start, end)
    ensures !Inside(view[j], start, end) ==> Unmapping(view, s, i + 1, j + 1, start, end)
  {
    var o := Outside(s[..i], start, end);
    assert s[..i + 1][..i] == s[..i];
    assert s[i..] == [s[i]] + s[i + 1..];
    assert o + s[i..] == o + [s[i]] + s[i + 1..];
    assert o + [] == o;
  }

  lemma UnmappingEnd(view: seq<Vma>, s: seq<Vma>, i: nat, j: nat, start: nat, end: nat)
    requires i <= |s| && Unmapping(view, s, i, j, start, end) && j >= |view|
    ensures view == Outside(s, start, end)
  {
    assert s[..|s|] == s && s[|s|..] == [];
  }

  /** Node number `j` of a list, NULL past its end. */
  function NodeAt(list: seq<nat>, j: nat): int {
    if j < |list| then list[j] else NULL
  }

  lemma HeadNode(list: seq<nat>)
    ensures First(list) == NodeAt(list, 0)
  {
  }

  lemma NoNode(list: seq<nat>, j: nat)
    requires NodeAt(list, j) == NULL
    ensures j >= |list|
  {
  }

  lemma NodeFacts(pool: Pool, vmas: int, list: seq<nat>, free: seq<nat>, j: nat)
    requires Linked(pool, vmas, list, free) && NodeAt(list, j) != NULL
    ensures j < |list| && 0 <= NodeAt(list, j) < |pool.next| && list[j] == NodeAt(list, j)
    ensures pool.next[list[j]] == NodeAt(list, j + 1) == NodeAt(DropAt(list, j), j)
    ensures |DropAt(list, j)| == |list| - 1
  {
    LinkedFacts(pool, vmas, list, free);
  }

  /** The list after vma_merge on area number `k`. */
  ghost function MergedView(s: seq<Vma>, k: nat): seq<Vma>
    requires k < |s|
  {
    var back := k > 0 && Mergeable(s[k - 1], s[k]);
    var t := if back then Joined(s, k - 1) else s;
    var i := if back then k - 1 else k;
    if i + 1 < |t| && Mergeable(t[i], t[i + 1]) then Joined(t, i) else t
  }

  /** The area is joined with each neighbour it continues or that continues it, and with no other. */
  lemma MergedIs(s: seq<Vma>, k: nat)
    requires k < |s|
    ensures var back := k > 0 && s[k - 1].end == s[k].start && s[k - 1].flags == s[k].flags && s[k - 1].fd == s[k].fd;
            var on := k + 1 < |s| && s[k].end == s[k + 1].start && s[k].flags == s[k + 1].flags &&
              s[k].fd == s[k + 1].fd;
            var t := MergedView(s, k);
            var i := if back then k - 1 else k;
            && |t| == |s| - (if back then 1 else 0) - (if on then 1 else 0) && i < |t|
            && t[i] == s[i].(end := if on then s[k + 1].end else s[k].end)
            && t[..i] == s[..i] && t[i + 1..] == s[if on then k + 2 else k + 1..]
  {
    if k > 0 && Mergeable(s[k - 1], s[k]) {
      var t := Joined(s, k - 1);
      assert t[k - 1] == s[k - 1].(end := s[k].end) && t[..k - 1] == s[..k - 1] && t[k..] == s[k + 1..];
      assert k < |t| ==> t[k] == s[k + 1];
    }
  }

  /** A merge keeps the mapping of every address, and the list sorted. */
  lemma MergedMaps(s: seq<Vma>, k: nat, a: nat)
    requires Sorted(s) && k < |s|
    ensures Sorted(MergedView(s, k)) && At(MergedView(s, k), a) == At(s, a)
  {
    hide Sorted, At, Mergeable, Joined;
    var back := k > 0 && Mergeable(s[k - 1], s[k]);
    var t := if back then Joined(s, k - 1) else s;
    var i := if back then k - 1 else k;
    if back {
      JoinedSorted(s, k - 1);
      MergeMaps(s, k - 1, a);
    }
    if i + 1 < |t| && Mergeable(t[i], t[i + 1]) {
      JoinedSorted(t, i);
      MergeMaps(t, i, a);
    }
  }

  lemma UnlinkCode(pool: Pool, vmas: int, list: seq<nat>, free: seq<nat>, k: nat)
    requires Linked(pool, vmas, list, free) && k < |list|
    ensures |pool.prev| == |pool.next| == |pool.area| && forall i | 0 <= i < |list| :: list[i] < |pool.area|
    ensures var p := list[k];
            && NULL <= pool.next[p] < |pool.next| && NULL <= pool.prev[p] < |pool.next|
            && pool.next[p] != p && pool.prev[p] != p
            && p !in DropAt(list, k) && p !in free
            && Linked(pool.(next := UnlinkNext(pool.next, pool.prev, p), prev := UnlinkPrev(pool.next, pool.prev, p)),
                      if pool.prev[p] != NULL then vmas else pool.next[p], DropAt(list, k), free)
  {
    hide IsList, IsChain;
    var p := list[k];
    assert p in list;
    ListFacts(pool.next, pool.prev, list);
    UnlinkKeeps(pool.next, pool.prev, list, k);
    DropAtDistinct(list, k);
    ChainElsewhere(pool, list, free, UnlinkNext(pool.next, pool.prev, p));
  }

  lemma ChainElsewhere(pool: Pool, list: seq<nat>, free: seq<nat>, next: seq<int>)
    requires IsChain(pool.next, pool.freeList, free) && |next| == |pool.next|
    requires (forall p: nat | p in list :: p !in free)
    requires forall q: nat | q < |next| && q !in list :: next[q] == pool.next[q]
    ensures IsChain(next, pool.freeList, free)
  {
    forall i | 0 <= i < |free|
      ensures next[free[i]] == pool.next[free[i]]
    {
      assert free[i] in free;
    }
    SameChain(pool.next, next, pool.freeList, free);
  }

  lemma ClashHere(s: seq<Vma>, k: nat, v: Vma)
    requires k <= |s|
    ensures Clash(s, k, v) <==> (k > 0 && s[k - 1].end > v.start) || (k < |s| && v.end > s[k].start)
  {
  }

  lemma LinkInCode(pool: Pool, list: seq<nat>, k: nat, p: nat)
    requires p < |pool.next| == |pool.prev| && k <= |list| && forall i | 0 <= i < |list| :: list[i] < |pool.next|
    ensures var prev := if k > 0 then list[k - 1] else NULL;
            var curr := if k < |list| then list[k] else NULL;
            var next := pool.next[p := curr];
            var back := pool.prev[p := prev];
            LinkIn(pool, list, k, p) == pool.(next := if k > 0 then next[prev := p] else next,
                                              prev := if k < |list| then back[curr := p] else back)
  {
  }

  lemma FirstInsert(pool: Pool, list: seq<nat>, p: nat)
    requires p < |pool.next| == |pool.prev| && list == []
    ensures LinkIn(pool, list, 0, p) == pool.(next := pool.next[p := NULL], prev := pool.prev[p := NULL])
  {
  }

  lemma PushFree(pool: Pool, vmas: int, list: seq<nat>, free: seq<nat>, p: nat)
    requires Linked(pool, vmas, list, free) && p < |pool.next| && p !in list && p !in free
    ensures Linked(pool.(next := pool.next[p := pool.freeList], freeList := p), vmas, list, [p] + free)
  {
    hide Distinct, IsList, IsChain, Areas;
    ListFacts(pool.next, pool.prev, list);
    ChainPush(pool.next, pool.freeList, free, p);
    Unlisted(pool, list, p, pool.freeList, pool.prev[p], pool.area[p]);
    assert pool.prev[p := pool.prev[p]] == pool.prev;
  }

  /** A node outside the list can be rewritten. */
  lemma Unlisted(pool: Pool, list: seq<nat>, p: nat, n: int, m: int, v: Vma)
    requires IsList(pool.next, pool.prev, list) && |pool.area| == |pool.next| && p < |pool.next| && p !in list
    ensures IsList(pool.next[p := n], pool.prev[p := m], list)
    ensures forall i | 0 <= i < |list| :: list[i] < |pool.area|
    ensures Areas(pool.area[p := v], list) == Areas(pool.area, list)
  {
    assert forall i | 0 <= i < |list| :: list[i] in list;
    SameList(pool.next, pool.prev, pool.next[p := n], pool.prev[p := m], list);
  }

  lemma PopFree(pool: Pool, vmas: int, list: seq<nat>, free: seq<nat>, v: Vma)
    requires Linked(pool, vmas, list, free) && pool.freeList != NULL
    ensures free != [] && free[0] == pool.freeList < |pool.next| && |pool.prev| == |pool.next|
    ensures free[0] !in list && free[0] !in free[1..] && free == [free[0]] + free[1..]
    ensures var p := free[0];
            var pool' := pool.(freeList := pool.next[p], next := pool.next[p := NULL], prev := pool.prev[p := NULL],
                               area := pool.area[p := v]);
            Linked(pool', vmas, list, free[1..]) && Areas(pool'.area, list) == Areas(pool.area, list)
  {
    hide Distinct, IsList, Areas;
    assert free[0] in free && free[0] !in list;
    ListFacts(pool.next, pool.prev, list);
    ChainPop(pool.next, pool.freeList, free, NULL);
    Unlisted(pool, list, free[0], NULL, NULL, v);
    assert forall q: nat | q in free[1..] :: q in free;
  }

  lemma AbsorbCode(pool: Pool, vmas: int, list: seq<nat>, free: seq<nat>, k: nat)
    requires Linked(pool, vmas, list, free) && k + 1 < |list|
    ensures |pool.prev| == |pool.next| == |pool.area| && forall i | 0 <= i < |list| :: list[i] < |pool.area|
    ensures var u, v := list[k], list[k + 1];
            && u != v && NULL <= pool.next[v] < |pool.next| && pool.next[v] != u && pool.next[v] != v
            && v !in DropAt(list, k + 1) && v !in free
            && var next := pool.next[u := pool.next[v]];
            var prev := if pool.next[v] != NULL then pool.prev[pool.next[v] := u] else pool.prev;
            var area := pool.area[u := pool.area[u].(end := pool.area[v].end)];
            && Linked(pool.(next := next, prev := prev, area := area), vmas, DropAt(list, k + 1), free)
            && Areas(area, DropAt(list, k + 1)) == Joined(Areas(pool.area, list), k)
  {
    hide Joined, IsChain;
    var u, v := list[k], list[k + 1];
    assert u in list && v in list && pool.next[u] == v && pool.prev[v] == u;
    UnlinkKeeps(pool.next, pool.prev, list, k + 1);
    DropAtDistinct(list, k + 1);
    var next := pool.next[u := pool.next[v]];
    var prev := if pool.next[v] != NULL then pool.prev[pool.next[v] := u] else pool.prev;
    Rehook(pool.next, pool.prev, next, prev, DropAt(list, k + 1), v);
    ChainElsewhere(pool, list, free, next);
    JoinAreas(pool.area, list, k);
  }

  lemma Rehook(next: seq<int>, prev: seq<int>, next': seq<int>, prev': seq<int>, s: seq<nat>, v: nat)
    requires v < |next| == |prev| && NULL <= prev[v] < |next| && NULL <= next[v] < |next| && v !in s
    requires IsList(UnlinkNext(next, prev, v), UnlinkPrev(next, prev, v), s)
    requires |next'| == |prev'| == |next| && next'[v := NULL] == UnlinkNext(next, prev, v)
    requires prev'[v := NULL] == UnlinkPrev(next, prev, v)
    ensures IsList(next', prev', s)
  {
    hide UnlinkNext, UnlinkPrev;
    assert forall i | 0 <= i < |s| :: s[i] in s;
    assert next' == next'[v := NULL][v := next'[v]] && prev' == prev'[v := NULL][v := prev'[v]];
    SameList(UnlinkNext(next, prev, v), UnlinkPrev(next, prev, v), next', prev', s);
  }

  lemma JoinAreas(area: seq<Vma>, list: seq<nat>, k: nat)
    requires (forall i | 0 <= i < |list| :: list[i] < |area|) && k + 1 < |list| && Distinct(list)
    ensures var d := DropAt(list, k + 1); forall i | 0 <= i < |d| :: d[i] < |area|
    ensures Areas(area[list[k] := area[list[k]].(end := area[list[k + 1]].end)], DropAt(list, k + 1))
            == Joined(Areas(area, list), k)
  {
  }
}
