/**
 The buddy allocator of kernel/mm/buddy.c: page descriptors, doubly linked free
 lists per order, splitting on allocation and eager coalescing on free.
 */
module Buddy {
  import opened Bytes
  import opened BuddyTree
  import opened Links

  const PAGE_SIZE: nat := 4096
  const START_ADDR: nat := 0x400000
  const END_ADDR: nat := 0x8000000

  // ---- addresses -----------------------------------------------------------------

  function PageToAddr(index: nat): nat {
    START_ADDR + index * PAGE_SIZE
  }

  function Addr(b: Block): nat {
    PageToAddr(Head(b))
  }

  function GetBuddy(addr: nat, order: nat): nat {
    Xor(addr, PAGE_SIZE * Pow2(order))
  }

  /** The descriptor index of an address in the window. */
  function AddrToIndex(addr: nat): nat
    requires START_ADDR <= addr
  {
    (addr - START_ADDR) / PAGE_SIZE
  }

  lemma XorDouble(a: nat, b: nat)
    ensures Xor(2 * a, 2 * b) == 2 * Xor(a, b)
  {
  }

  lemma {:induction false} XorMultiple(m: nat, j: nat)
    ensures Xor(m * Pow2(j), Pow2(j)) == Flip(m) * Pow2(j)
  {
    if j == 0 {
      XorZero(m / 2);
    } else {
      XorMultiple(m, j - 1);
      Doubled(m, Pow2(j - 1));
      Doubled(Flip(m), Pow2(j - 1));
      XorDouble(m * Pow2(j - 1), Pow2(j - 1));
    }
  }

  lemma Doubled(m: nat, q: nat)
    ensures m * (2 * q) == 2 * (m * q)
  {
  }

  lemma {:induction false} Pow2Add(i: nat, j: nat)
    ensures Pow2(i + j) == Pow2(i) * Pow2(j)
  {
    if i != 0 { Pow2Add(i - 1, j); }
  }

  lemma FlipShift(n: nat, h: nat)
    ensures Flip(n + 2 * h) == Flip(n) + 2 * h
  {
  }

  /** Seen from the window's 4 MiB base, XOR with the block size swaps a block with its buddy. */
  lemma BuddyAddress(b: Block)
    requires b.k < TOP
    ensures GetBuddy(Addr(b), b.k) == Addr(Buddy(b))
  {
    var h := Pow2(TOP - b.k - 1);
    var m := b.n + 2 * h;
    FlipShift(b.n, h);
    assert Addr(b) == m * Pow2(12 + b.k) by { AddrAsMultiple(b, m); }
    assert Addr(Buddy(b)) == Flip(m) * Pow2(12 + b.k) by { AddrAsMultiple(Buddy(b), Flip(m)); }
    assert Xor(m * Pow2(12 + b.k), Pow2(12 + b.k)) == Flip(m) * Pow2(12 + b.k) by { XorMultiple(m, 12 + b.k); }
    assert Pow2(12 + b.k) == PAGE_SIZE * Pow2(b.k) by { PageShift(b.k); }
  }

  lemma PageShift(k: nat)
    ensures Pow2(12 + k) == PAGE_SIZE * Pow2(k)
  {
    Pow2Add(12, k);
    Pow2Add(10, 2);
    assert Pow2(2) == 4 && Pow2(10) == 1024 by { Pow2Add(5, 5); assert Pow2(5) == 32; }
  }

  lemma AddrAsMultiple(b: Block, m: nat)
    requires b.k < TOP && m == b.n + 2 * Pow2(TOP - b.k - 1)
    ensures Addr(b) == m * Pow2(12 + b.k)
  {
    var h, q := Pow2(TOP - b.k), Pow2(b.k);
    assert Head(b) == b.n * q by { HeadIsMultiple(b); }
    assert h * q == 1024 by { Pow2Add(TOP - b.k, b.k); Pow2Top(); }
    assert Pow2(12 + b.k) == 4096 * q by { PageShift(b.k); }
    assert (b.n + h) * (4096 * q) == 4096 * (b.n * q) + 4096 * (h * q) by { Distribute(b.n, h, q); }
  }

  lemma Distribute(n: nat, h: nat, q: nat)
    ensures (n + h) * (4096 * q) == 4096 * (n * q) + 4096 * (h * q)
  {
    assert (n + h) * q == n * q + h * q;
    assert (n + h) * (4096 * q) == 4096 * ((n + h) * q);
  }

  lemma AddrIndex(b: Block)
    requires InTree(b)
    ensures START_ADDR <= Addr(b) < END_ADDR && AddrToIndex(Addr(b)) == Head(b)
  {
    HeadInWindow(b);
  }

  /** A block is the bytes from its address on, inside the window; blocks without a common page share no byte. */
  lemma BlockBytes(b: Block, c: Block)
    requires InTree(b) && InTree(c)
    ensures Addr(b) == START_ADDR + PAGE_SIZE * Head(b) && Addr(b) + PAGE_SIZE * Pow2(b.k) <= END_ADDR
    ensures PagesOf(b) !! PagesOf(c) ==>
              Addr(b) + PAGE_SIZE * Pow2(b.k) <= Addr(c) || Addr(c) + PAGE_SIZE * Pow2(c.k) <= Addr(b)
  {
    hide Head, InTree;
    var last := Head(b) + Pow2(b.k) - 1;
    CoversInterval(b, last);
    InTreePages(b, last);
    if PagesOf(b) !! PagesOf(c) {
      assert Head(b) in PagesOf(b) && Head(c) in PagesOf(c);
    }
  }

  // ---- sizes -----------------------------------------------------------------------

  /** The least order from `k` up whose block holds `size` bytes, capped at the top order. */
  function OrderOf(size: nat, k: nat): (order: nat)
    ensures k <= TOP ==> k <= order <= TOP
    decreases TOP - k
  {
    if k >= TOP || size <= PAGE_SIZE * Pow2(k) then k else OrderOf(size, k + 1)
  }

  /** buddy_get_order. */
  method GetOrder(size: nat) returns (order: nat)
    ensures order == OrderOf(size, 0)
    ensures order < TOP ==> size <= PAGE_SIZE * Pow2(order)
    ensures 0 < order ==> PAGE_SIZE * Pow2(order - 1) < size
  {
    order := 0;
    var blockSize := PAGE_SIZE;
    while blockSize < size && order < MAX_ORDER - 1
      invariant order <= TOP && blockSize == PAGE_SIZE * Pow2(order)
      invariant OrderOf(size, 0) == OrderOf(size, order)
      invariant 0 < order ==> PAGE_SIZE * Pow2(order - 1) < size
      decreases TOP - order
    {
      blockSize := blockSize * 2;
      order := order + 1;
    }
  }

  lemma {:induction false} OrderFits(size: nat, k: nat)
    requires k <= TOP
    ensures OrderOf(size, k) < TOP ==> size <= PAGE_SIZE * Pow2(OrderOf(size, k))
    decreases TOP - k
  {
    if k < TOP && size > PAGE_SIZE * Pow2(k) { OrderFits(size, k + 1); }
  }

  lemma {:induction false} Pow2Bound(k: nat, m: nat)
    requires k <= m
    ensures Pow2(k) <= Pow2(m)
  {
    if k < m { Pow2Bound(k, m - 1); }
  }

  lemma Pow2Top()
    ensures Pow2(TOP) == 1024
  {
    Pow2Add(5, 5);
    assert Pow2(5) == 32;
  }

  /** The order chosen for a page count holds that many pages exactly up to 1024 pages (4 MiB). */
  lemma OrderHolds(numPages: nat)
    requires numPages < U32
    ensures OrderOf(numPages * PAGE_SIZE % U32, 0) < MAX_ORDER
    ensures numPages <= Pow2(OrderOf(numPages * PAGE_SIZE % U32, 0)) <==> numPages <= 1024
  {
    var size := numPages * PAGE_SIZE % U32;
    var order := OrderOf(size, 0);
    Pow2Top();
    Pow2Bound(order, TOP);
    OrderFits(size, 0);
  }

  /** 1025 pages get the largest block, one page short; 2^20 + 1 pages, whose byte count wraps, get a single page. */
  lemma OrderExample()
    ensures OrderOf(1025 * PAGE_SIZE % U32, 0) == TOP && Pow2(TOP) == 1024
    ensures OrderOf((U32 / PAGE_SIZE + 1) * PAGE_SIZE % U32, 0) == 0
  {
    Pow2Top();
    var order := OrderOf(1025 * PAGE_SIZE, 0);
    OrderFits(1025 * PAGE_SIZE, 0);
    Pow2Bound(order, TOP);
  }

  // ---- free lists ------------------------------------------------------------------

  /** The block of order `k` that starts at page `p`. */
  function BlockAt(p: nat, k: nat): Block {
    Block(Anc(p, k), k)
  }

  /** The lists hold exactly the first pages of the free blocks, by order. */
  ghost predicate Agree(free: set<Block>, lists: seq<seq<nat>>) {
    && |lists| == MAX_ORDER
    && (forall b | b in free :: InTree(b) && Head(b) in lists[b.k])
    && (forall k: nat, p | k < MAX_ORDER && p in lists[k] :: BlockAt(p, k) in free && Head(BlockAt(p, k)) == p)
  }

  lemma BlockAtHead(b: Block)
    ensures BlockAt(Head(b), b.k) == b
  {
    CoversInterval(b, Head(b));
  }

  lemma BlockAtCovers(p: nat, k: nat)
    ensures Covers(BlockAt(p, k), p)
  {
  }

  lemma AgreeRemove(free: set<Block>, lists: seq<seq<nat>>, k: nat, i: nat)
    requires Agree(free, lists) && k < MAX_ORDER && i < |lists[k]| && Distinct(lists[k])
    ensures Agree(free - {BlockAt(lists[k][i], k)}, lists[k := DropAt(lists[k], i)])
  {
    DropAtDistinct(lists[k], i);
    var p := lists[k][i];
    var lists' := lists[k := DropAt(lists[k], i)];
    forall b | b in free && b != BlockAt(p, k)
      ensures Head(b) in lists'[b.k]
    {
      BlockAtHead(b);
    }
    forall j: nat, q | j < MAX_ORDER && q in lists'[j]
      ensures BlockAt(q, j) in free - {BlockAt(p, k)}
    {
      assert q in lists[j];
    }
  }

  lemma AgreeAdd(free: set<Block>, lists: seq<seq<nat>>, b: Block)
    requires Agree(free, lists) && InTree(b)
    ensures Agree(free + {b}, lists[b.k := [Head(b)] + lists[b.k]])
  {
    BlockAtHead(b);
  }

  lemma HoleUnlisted(free: set<Block>, live: set<Block>, hole: Block, lists: seq<seq<nat>>, p: nat)
    requires Held(free, live, hole) && Agree(free, lists) && Covers(hole, p)
    ensures forall j: nat | j < MAX_ORDER :: p !in lists[j]
  {
    forall j: nat | j < MAX_ORDER
      ensures p !in lists[j]
    {
      if p in lists[j] {
        HeldHeads(free, live, hole, p, BlockAt(p, j));
      }
    }
  }

  ghost predicate HeadOf(live: set<Block>, p: nat) {
    exists b :: b in live && Head(b) == p
  }

  /** The first page of a live block carries its order and one reference; no other page is referenced. */
  ghost predicate RefsOk(orders: seq<nat>, refCounts: seq<nat>, live: set<Block>) {
    && |orders| == |refCounts| == TOTAL_PAGES
    && (forall b | b in live :: Head(b) < TOTAL_PAGES && orders[Head(b)] == b.k && refCounts[Head(b)] == 1)
    && (forall p: nat | p < TOTAL_PAGES && refCounts[p] != 0 :: HeadOf(live, p))
  }

  lemma HoleUnreferenced(orders: seq<nat>, refCounts: seq<nat>, free: set<Block>, live: set<Block>, hole: Block,
                         p: nat, k: nat)
    requires Held(free, live, hole) && RefsOk(orders, refCounts, live) && Covers(hole, p) && p < TOTAL_PAGES
    ensures |orders| == |refCounts| == TOTAL_PAGES && refCounts[p] == 0
    ensures RefsOk(orders[p := k], refCounts, live)
  {
    forall b | b in live
      ensures Head(b) != p
    {
      HeldHeads(free, live, hole, p, b);
    }
  }

  lemma ReferenceHole(orders: seq<nat>, refCounts: seq<nat>, free: set<Block>, live: set<Block>, hole: Block)
    requires Held(free, live, hole) && RefsOk(orders, refCounts, live)
    ensures Head(hole) < TOTAL_PAGES == |orders| == |refCounts|
    ensures RefsOk(orders[Head(hole) := hole.k], refCounts[Head(hole) := 1], live + {hole})
  {
    assert hole in free + live + {hole};
    HeadInWindow(hole);
    var p := Head(hole);
    forall b | b in live
      ensures Head(b) != p
    {
      HeldHeads(free, live, hole, p, b);
    }
    forall q: nat | q < TOTAL_PAGES && refCounts[p := 1][q] != 0
      ensures HeadOf(live + {hole}, q)
    {
      if q == p {
        assert hole in live + {hole};
      } else {
        var b :| b in live && Head(b) == q;
        assert b in live + {hole};
      }
    }
  }

  lemma ReleaseHole(orders: seq<nat>, refCounts: seq<nat>, free: set<Block>, live: set<Block>, b: Block)
    requires Inv(free, live) && RefsOk(orders, refCounts, live) && b in live
    ensures Head(b) < TOTAL_PAGES == |orders| == |refCounts| && refCounts[Head(b)] == 1
    ensures RefsOk(orders, refCounts[Head(b) := 0], live - {b})
  {
    TakeLive(free, live, b);
    HeadInWindow(b) by { assert b in free + live; }
    forall c | c in live - {b}
      ensures Head(c) != Head(b)
    {
      HeldHeads(free, live - {b}, b, Head(b), c);
    }
    forall q: nat | q < TOTAL_PAGES && q != Head(b) && refCounts[q] != 0
      ensures HeadOf(live - {b}, q)
    {
      var c :| c in live && Head(c) == q;
      assert c in live - {b};
    }
  }

  /** `order` allocations are refused: every aligned run of 2^order pages holds a live page. */
  ghost predicate Exhausted(live: set<Block>, order: nat) {
    forall b | InTree(b) && b.k == order :: Blocked(live, b)
  }

  lemma NoListNoRun(free: set<Block>, live: set<Block>, lists: seq<seq<nat>>, order: nat)
    requires Inv(free, live) && Agree(free, lists) && order < MAX_ORDER
    ensures Exhausted(live, order) <==> forall k: nat | order <= k < MAX_ORDER :: lists[k] == []
  {
    Completeness(free, live, order);
    if k: nat :| order <= k < MAX_ORDER && lists[k] != [] {
      assert lists[k][0] in lists[k];
      assert BlockAt(lists[k][0], k) in free;
    }
    if c :| c in free && order <= c.k {
      assert c in free + live;
      assert Head(c) in lists[c.k];
    }
  }

  /** Least-order fit: `b` starts the free block `c`, and no free block that is large enough is smaller. */
  ghost predicate BestFit(free: set<Block>, b: Block) {
    exists c :: c in free && b.k <= c.k && Head(c) == Head(b) && forall d | d in free && b.k <= d.k :: c.k <= d.k
  }

  lemma CountAlloc(free: set<Block>, live: set<Block>, hole: Block)
    requires Held(free, live, hole)
    ensures InTree(hole) && hole !in live
    ensures UsedPages(live) !! PagesOf(hole)
    ensures |UsedPages(live + {hole})| == |UsedPages(live)| + Pow2(hole.k)
  {
    var all := free + live + {hole};
    assert live + {hole} <= all && hole in all;
    UsedPagesAdd(live, hole);
  }

  lemma CountFree(free: set<Block>, live: set<Block>, b: Block)
    requires Held(free, live - {b}, b) && b in live
    ensures |UsedPages(live - {b})| == |UsedPages(live)| - Pow2(b.k)
  {
    CountAlloc(free, live - {b}, b);
    assert live - {b} + {b} == live;
  }

  lemma HeadLeft(b: Block)
    requires 0 < b.k
    ensures Head(Left(b)) == Head(b)
  {
  }

  /** What the split loop of `Alloc` reads off the addresses. */
  lemma SplitAddresses(free: set<Block>, live: set<Block>, hole: Block)
    requires Held(free, live, hole) && 0 < hole.k
    ensures var r := Buddy(Left(hole));
            && Head(Left(hole)) == Head(hole)
            && GetBuddy(Addr(hole), hole.k - 1) == Addr(r)
            && START_ADDR <= Addr(r) < END_ADDR && AddrToIndex(Addr(r)) == Head(r) < TOTAL_PAGES
            && Covers(hole, Head(r)) && InTree(r) && BlockAt(Head(r), r.k) == r
            && BlockAt(Head(hole), hole.k - 1) == Left(hole)
  {
    hide Head, Anc, Xor, Pow2;
    var l := Left(hole);
    var r := Buddy(l);
    assert Head(l) == Head(hole) by { HeadLeft(hole); }
    assert Parent(l) == hole && InTree(hole) by { assert hole in free + live + {hole}; }
    ParentInTree(l);
    BuddyAddress(l);
    AddrIndex(r);
    HeadInWindow(r);
    ParentCovers(l, Head(r));
    BlockAtHead(r);
    BlockAtHead(l);
  }

  /** What the coalescing loop of `Free` reads off the addresses. */
  lemma MergeAddresses(free: set<Block>, live: set<Block>, hole: Block, lists: seq<seq<nat>>)
    requires Held(free, live, hole) && hole.k < TOP && Agree(free, lists)
    ensures var b := Buddy(hole);
            && GetBuddy(Addr(hole), hole.k) == Addr(b)
            && START_ADDR <= Addr(b) < END_ADDR && AddrToIndex(Addr(b)) == Head(b) < TOTAL_PAGES
            && BlockAt(Head(b), b.k) == b && BlockAt(Head(Parent(hole)), hole.k + 1) == Parent(hole)
            && (b in free <==> Head(b) in lists[hole.k])
            && (Addr(hole) > Addr(b) <==> Head(hole) > Head(b))
  {
    var b := Buddy(hole);
    assert InTree(hole) by { assert hole in free + live + {hole}; }
    ParentInTree(hole);
    BuddyAddress(hole);
    AddrIndex(b);
    HeadInWindow(b);
    BlockAtHead(b);
    BlockAtHead(Parent(hole));
  }

  lemma RootAt(i: nat, page: nat, lists: seq<seq<nat>>)
    requires i < ROOTS && page == i * 1024 && Agree(Roots(i), lists)
    ensures BlockAt(page, TOP) == Block(i, TOP) && InTree(Block(i, TOP)) && Head(Block(i, TOP)) == page < TOTAL_PAGES
    ensures forall k: nat | k < MAX_ORDER :: page !in lists[k]
  {
    AncTop(page);
    HeadIsMultiple(Block(i, TOP));
    Pow2Top();
    forall k: nat | k < MAX_ORDER
      ensures page !in lists[k]
    {
      assert page in lists[k] ==> BlockAt(page, k) in Roots(i);
    }
  }

  lemma RootsSucc(i: nat)
    ensures Roots(i + 1) == Roots(i) + {Block(i, TOP)}
  {
  }

  lemma InitialRefs(orders: seq<nat>, refCounts: seq<nat>)
    requires |orders| == TOTAL_PAGES && refCounts == Fill(TOTAL_PAGES, 0)
    ensures RefsOk(orders, refCounts, {})
  {
  }

  /** List `k` of the lists threaded through the descriptors. */
  ghost predicate ListOk(next: seq<int>, prev: seq<int>, orders: seq<nat>, refCounts: seq<nat>, head: int, count: nat,
                         s: seq<nat>, k: nat)
    requires |next| == |prev| == |orders| == |refCounts|
  {
    && IsList(next, prev, s)
    && head == First(s)
    && count == |s|
    && (forall p | p in s :: p < |next| && orders[p] == k && refCounts[p] == 0)
  }

  ghost predicate AllLinked(next: seq<int>, prev: seq<int>, orders: seq<nat>, refCounts: seq<nat>,
                            freeLists: seq<int>, freePages: seq<nat>, lists: seq<seq<nat>>)
  {
    && |next| == |prev| == |orders| == |refCounts| == TOTAL_PAGES
    && |freeLists| == |freePages| == |lists| == MAX_ORDER
    && (forall k: nat | k < MAX_ORDER :: ListOk(next, prev, orders, refCounts, freeLists[k], freePages[k], lists[k], k))
  }

  lemma EmptyLinked(next: seq<int>, prev: seq<int>, orders: seq<nat>, refCounts: seq<nat>,
                    freeLists: seq<int>, freePages: seq<nat>, lists: seq<seq<nat>>)
    requires |next| == |prev| == |orders| == |refCounts| == TOTAL_PAGES
    requires freeLists == Fill(MAX_ORDER, NULL) && freePages == Fill(MAX_ORDER, 0)
    requires lists == Fill(MAX_ORDER, [])
    ensures AllLinked(next, prev, orders, refCounts, freeLists, freePages, lists)
    ensures Agree({}, lists)
  {
  }

  lemma UnlinkAll(next: seq<int>, prev: seq<int>, orders: seq<nat>, refCounts: seq<nat>,
                  freeLists: seq<int>, freePages: seq<nat>, lists: seq<seq<nat>>, k: nat, i: nat)
    requires AllLinked(next, prev, orders, refCounts, freeLists, freePages, lists)
    requires k < MAX_ORDER && i < |lists[k]|
    ensures var p := lists[k][i];
            && p < TOTAL_PAGES && NULL <= next[p] < TOTAL_PAGES && NULL <= prev[p] < TOTAL_PAGES
            && next[p] != p && prev[p] != p
            && freePages[k] > 0 && Distinct(lists[k])
            && AllLinked(UnlinkNext(next, prev, p), UnlinkPrev(next, prev, p), orders, refCounts,
                         if prev[p] == NULL then freeLists[k := next[p]] else freeLists,
                         freePages[k := freePages[k] - 1], lists[k := DropAt(lists[k], i)])
  {
    var p := lists[k][i];
    assert ListOk(next, prev, orders, refCounts, freeLists[k], freePages[k], lists[k], k);
    UnlinkKeeps(next, prev, lists[k], i);
    DropAtDistinct(lists[k], i);
    forall j: nat | j < MAX_ORDER && j != k
      ensures IsList(UnlinkNext(next, prev, p), UnlinkPrev(next, prev, p), lists[j])
    {
      assert ListOk(next, prev, orders, refCounts, freeLists[j], freePages[j], lists[j], j);
      SameList(next, prev, UnlinkNext(next, prev, p), UnlinkPrev(next, prev, p), lists[j]);
    }
  }

  lemma PushAll(next: seq<int>, prev: seq<int>, orders: seq<nat>, refCounts: seq<nat>,
                freeLists: seq<int>, freePages: seq<nat>, lists: seq<seq<nat>>, k: nat, p: nat)
    requires AllLinked(next, prev, orders, refCounts, freeLists, freePages, lists)
    requires k < MAX_ORDER && p < TOTAL_PAGES && refCounts[p] == 0
    requires forall j: nat | j < MAX_ORDER :: p !in lists[j]
    ensures freeLists[k] == First(lists[k]) < TOTAL_PAGES
    ensures AllLinked(PushNext(next, lists[k], p), PushPrev(prev, lists[k], p), orders[p := k], refCounts,
                      freeLists[k := p], freePages[k := freePages[k] + 1], lists[k := [p] + lists[k]])
  {
    assert ListOk(next, prev, orders, refCounts, freeLists[k], freePages[k], lists[k], k);
    PushKeeps(next, prev, lists[k], p);
    forall j: nat | j < MAX_ORDER && j != k
      ensures IsList(PushNext(next, lists[k], p), PushPrev(prev, lists[k], p), lists[j])
    {
      assert ListOk(next, prev, orders, refCounts, freeLists[j], freePages[j], lists[j], j);
      SameList(next, prev, PushNext(next, lists[k], p), PushPrev(prev, lists[k], p), lists[j]);
    }
  }

  lemma ListedFields(next: seq<int>, prev: seq<int>, orders: seq<nat>, refCounts: seq<nat>,
                     freeLists: seq<int>, freePages: seq<nat>, lists: seq<seq<nat>>, k: nat, p: nat)
    requires AllLinked(next, prev, orders, refCounts, freeLists, freePages, lists) && k < MAX_ORDER && p < TOTAL_PAGES
    ensures p in lists[k] ==> orders[p] == k && refCounts[p] == 0
  {
    assert ListOk(next, prev, orders, refCounts, freeLists[k], freePages[k], lists[k], k);
  }

  /** Descriptors off the lists can be rewritten freely. */
  lemma TouchUnlisted(next: seq<int>, prev: seq<int>, orders: seq<nat>, refCounts: seq<nat>,
                      freeLists: seq<int>, freePages: seq<nat>, lists: seq<seq<nat>>, p: nat, k: nat, r: nat)
    requires AllLinked(next, prev, orders, refCounts, freeLists, freePages, lists) && p < TOTAL_PAGES
    requires forall j: nat | j < MAX_ORDER :: p !in lists[j]
    ensures AllLinked(next, prev, orders[p := k], refCounts[p := r], freeLists, freePages, lists)
  {
    forall j: nat | j < MAX_ORDER
      ensures ListOk(next, prev, orders[p := k], refCounts[p := r], freeLists[j], freePages[j], lists[j], j)
    {
      assert ListOk(next, prev, orders, refCounts, freeLists[j], freePages[j], lists[j], j);
    }
  }

  // ---- the allocator ---------------------------------------------------------------

  /**
   The static state of kernel/mm/buddy.c. Page descriptors are fields indexed by
   page; a descriptor pointer is the page's index.
   */
  class Allocator {
    var next: seq<int>
    var prev: seq<int>
    var orders: seq<nat>
    var refCounts: seq<nat>
    var freeLists: seq<int>
    var freePages: seq<nat>
    var totalFree: int
    var totalUsed: int
    var initialized: bool

    /** The pages on each free list, front first; the free and the live blocks. */
    ghost var lists: seq<seq<nat>>
    ghost var free: set<Block>
    ghost var live: set<Block>

    ghost predicate Lists()
      reads this
    {
      && AllLinked(next, prev, orders, refCounts, freeLists, freePages, lists)
      && Agree(free, lists)
    }

    method RemoveFromFreeList(page: nat, order: nat)
      requires Lists() && order < MAX_ORDER && page in lists[order]
      modifies `next, `prev, `freeLists, `freePages, `lists, `free
      ensures Lists() && free == old(free) - {BlockAt(page, order)}
    {
      hide Head, Anc, ListOk;
      ghost var i: nat :| i < |lists[order]| && lists[order][i] == page;
      UnlinkAll(next, prev, orders, refCounts, freeLists, freePages, lists, order, i);
      AgreeRemove(free, lists, order, i);
      if prev[page] != NULL {
        next := next[prev[page] := next[page]];
      } else {
        freeLists := freeLists[order := next[page]];
      }
      if next[page] != NULL {
        prev := prev[next[page] := prev[page]];
      }
      next := next[page := NULL];
      prev := prev[page := NULL];
      freePages := freePages[order := freePages[order] - 1];
      lists, free := lists[order := DropAt(lists[order], i)], free - {BlockAt(page, order)};
    }

    method AddToFreeList(page: nat, order: nat)
      requires Lists() && order < MAX_ORDER && page < TOTAL_PAGES && refCounts[page] == 0
      requires forall j: nat | j < MAX_ORDER :: page !in lists[j]
      requires InTree(BlockAt(page, order)) && Head(BlockAt(page, order)) == page
      modifies `next, `prev, `orders, `freeLists, `freePages, `lists, `free
      ensures Lists() && free == old(free) + {BlockAt(page, order)}
      ensures orders == old(orders)[page := order]
    {
      hide Head, Anc, ListOk;
      PushAll(next, prev, orders, refCounts, freeLists, freePages, lists, order, page);
      AgreeAdd(free, lists, BlockAt(page, order));
      orders := orders[page := order];
      next := next[page := freeLists[order]];
      prev := prev[page := NULL];
      if freeLists[order] != NULL {
        prev := prev[freeLists[order] := page];
      }
      freeLists := freeLists[order := page];
      freePages := freePages[order := freePages[order] + 1];
      lists, free := lists[order := [page] + lists[order]], free + {BlockAt(page, order)};
    }

    /** Static storage before `buddy_init`: everything zero. */
    constructor ()
      ensures !initialized
    {
      next, prev, orders, refCounts, freeLists, freePages := [], [], [], [], [], [];
      totalFree, totalUsed, initialized := 0, 0, false;
      lists, free, live := [], {}, {};
    }

    /** buddy_init: the whole window is free, as blocks of the largest order. */
    method Init()
      requires initialized ==> Valid()
      modifies this
      ensures initialized && Valid()
      ensures if old(initialized) then live == old(live) && free == old(free) else live == {} && free == Roots(ROOTS)
    {
      hide Head, Anc, Inv, RefsOk, UsedPages, AllLinked, Agree, Roots;
      if initialized {
        return;
      }
      freeLists := Fill(MAX_ORDER, NULL);
      freePages := Fill(MAX_ORDER, 0);
      totalFree, totalUsed := 0, 0;
      next := Fill(TOTAL_PAGES, NULL);
      prev := Fill(TOTAL_PAGES, NULL);
      orders := Fill(TOTAL_PAGES, 0);
      refCounts := Fill(TOTAL_PAGES, 0);
      lists, free, live := Fill(MAX_ORDER, []), {}, {};
      EmptyLinked(next, prev, orders, refCounts, freeLists, freePages, lists);
      AddRoots();
      InitialInv();
      InitialRefs(orders, refCounts);
      initialized := true;
    }

    /** Adds the window's top-order blocks to their free list, one after the other. */
    method AddRoots()
      requires Lists() && free == {} && totalFree == 0 && refCounts == Fill(TOTAL_PAGES, 0)
      modifies `next, `prev, `orders, `freeLists, `freePages, `lists, `free, `totalFree
      ensures Lists() && free == Roots(ROOTS) && totalFree == TOTAL_PAGES == |orders|
    {
      hide Head, Anc, ListOk;
      var i := 0;
      while i < ROOTS
        invariant i <= ROOTS && Lists() && free == Roots(i) && totalFree == i * 1024
      {
        var page := AddrToIndex(START_ADDR + i * (PAGE_SIZE * 1024));
        RootAt(i, page, lists);
        AddToFreeList(page, MAX_ORDER - 1);
        totalFree := totalFree + 1024;
        RootsSucc(i);
        i := i + 1;
      }
    }

    /** The state between calls. */
    ghost predicate Valid()
      reads this
    {
      && Lists()
      && Inv(free, live)
      && RefsOk(orders, refCounts, live)
      && totalUsed == |UsedPages(live)|
      && totalFree == TOTAL_PAGES - totalUsed
    }

    /** The state inside a call, with block `hole` in hand. */
    ghost predicate Holding(hole: Block)
      reads this
    {
      Lists() && Held(free, live, hole) && RefsOk(orders, refCounts, live)
    }

    /** Carves the block of `order` at `page` out of the block of order `from`, freeing the right halves. */
    method Split(page: nat, from: nat, order: nat)
      requires order <= from < MAX_ORDER && Holding(BlockAt(page, from)) && Head(BlockAt(page, from)) == page
      modifies `next, `prev, `orders, `freeLists, `freePages, `lists, `free
      ensures Holding(BlockAt(page, order)) && Head(BlockAt(page, order)) == page
    {
      hide Head, Anc, AllLinked, Agree, Held, RefsOk, GetBuddy;
      var current := from;
      while current > order
        invariant order <= current <= from
        invariant Holding(BlockAt(page, current)) && Head(BlockAt(page, current)) == page
      {
        ghost var hole := BlockAt(page, current);
        SplitAddresses(free, live, hole);
        SplitHeld(free, live, hole);
        current := current - 1;
        var buddyAddr := GetBuddy(PageToAddr(page), current);
        if START_ADDR <= buddyAddr < END_ADDR {
          var buddyPage := AddrToIndex(buddyAddr);
          HoleUnlisted(free, live, hole, lists, buddyPage);
          HoleUnreferenced(orders, refCounts, free, live, hole, buddyPage, current);
          AddToFreeList(buddyPage, current);
        }
      }
    }

    /** The first non-empty list that can serve `order`, or MAX_ORDER. */
    method FindList(order: nat) returns (current: nat)
      requires Valid() && order < MAX_ORDER
      ensures order <= current <= MAX_ORDER
      ensures current == MAX_ORDER <==> Exhausted(live, order)
      ensures |freeLists| == |lists| == MAX_ORDER
      ensures current < MAX_ORDER ==>
                var page := freeLists[current];
                && 0 <= page && page in lists[current]
                && BlockAt(page, current) in free && Head(BlockAt(page, current)) == page
                && forall d | d in free && order <= d.k :: current <= d.k
    {
      hide Head, Anc, Inv, Blocked, RefsOk, Exhausted;
      current := order;
      while current < MAX_ORDER && freeLists[current] == NULL
        invariant order <= current <= MAX_ORDER
        invariant forall k: nat | order <= k < current :: lists[k] == []
      {
        assert ListOk(next, prev, orders, refCounts, freeLists[current], freePages[current], lists[current], current);
        current := current + 1;
      }
      NoListNoRun(free, live, lists, order);
      if current < MAX_ORDER {
        assert ListOk(next, prev, orders, refCounts, freeLists[current], freePages[current], lists[current], current);
      }
    }

    /** Takes the front block of list `current`, splits it and marks the left part live. */
    method Take(current: nat, order: nat) returns (page: nat)
      requires Valid() && order <= current < MAX_ORDER == |freeLists| == |lists| && 0 <= freeLists[current]
      requires freeLists[current] in lists[current] && BlockAt(freeLists[current], current) in free
      requires Head(BlockAt(freeLists[current], current)) == freeLists[current]
      modifies this
      ensures Valid() && initialized == old(initialized) && page == old(freeLists[current])
      ensures var b := BlockAt(page, order);
              && Head(b) == page && InTree(b)
              && b !in old(live) && live == old(live) + {b} && UsedPages(old(live)) !! PagesOf(b)
    {
      hide Head, Anc, AllLinked, Agree, Held, Inv, RefsOk, InTree, PagesOf, UsedPages;
      page := freeLists[current];
      TakeFree(free, live, BlockAt(page, current));
      RemoveFromFreeList(page, current);
      Split(page, current, order);
      ghost var b := BlockAt(page, order);
      CountAlloc(free, live, b);
      ReferenceHole(orders, refCounts, free, live, b);
      GiveLive(free, live, b);
      BlockAtCovers(page, order);
      HoleUnlisted(free, live, b, lists, page);
      TouchUnlisted(next, prev, orders, refCounts, freeLists, freePages, lists, page, order, 1);
      orders := orders[page := order];
      refCounts := refCounts[page := 1];
      totalFree := totalFree - Pow2(order);
      totalUsed := totalUsed + Pow2(order);
      live := live + {b};
    }

    /** buddy_alloc: the address of a block of 2^order pages, or 0. */
    method Alloc(order: nat) returns (addr: nat)
      requires initialized ==> Valid()
      modifies this
      ensures initialized == old(initialized) && (initialized ==> Valid())
      ensures addr == 0 <==> !initialized || order >= MAX_ORDER || Exhausted(old(live), order)
      ensures addr == 0 ==> live == old(live) && free == old(free)
      ensures addr != 0 ==>
                && START_ADDR <= addr
                && var b := BlockAt(AddrToIndex(addr), order);
                && addr == Addr(b) && InTree(b)
                && b !in old(live) && live == old(live) + {b} && UsedPages(old(live)) !! PagesOf(b)
                && BestFit(old(free), b)
    {
      hide Valid, Head, Anc, Exhausted, InTree, PagesOf, UsedPages;
      if !initialized || order >= MAX_ORDER {
        return 0;
      }
      var current := FindList(order);
      if current >= MAX_ORDER {
        return 0;
      }
      ghost var c := BlockAt(freeLists[current], current);
      var page := Take(current, order);
      assert c in old(free) && Head(c) == page;
      addr := PageToAddr(page);
    }

    /** Walks list `order` looking for a descriptor. */
    method InList(order: nat, page: nat) returns (found: bool)
      requires Lists() && order < MAX_ORDER
      ensures found <==> page in lists[order]
    {
      hide Head, Anc, Agree;
      ghost var s := lists[order];
      assert ListOk(next, prev, orders, refCounts, freeLists[order], freePages[order], s, order);
      ghost var i := 0;
      var curr := freeLists[order];
      found := false;
      while curr != NULL
        invariant 0 <= i <= |s|
        invariant curr == if i < |s| then s[i] else NULL
        invariant page !in s[..i]
        decreases |s| - i
      {
        if curr == page {
          return true;
        }
        curr := next[curr];
        i := i + 1;
      }
    }

    /** Merges the block in hand with its buddy for as long as the buddy is free. */
    method Coalesce(addr: nat, page0: nat, order0: nat) returns (page: nat, order: nat)
      requires order0 < MAX_ORDER && addr == PageToAddr(page0)
      requires Holding(BlockAt(page0, order0)) && Head(BlockAt(page0, order0)) == page0
      modifies `next, `prev, `freeLists, `freePages, `lists, `free
      ensures order < MAX_ORDER && Holding(BlockAt(page, order)) && Head(BlockAt(page, order)) == page
      ensures order < TOP ==> Buddy(BlockAt(page, order)) !in free
    {
      hide Head, Anc, Agree, Held, ListOk, GetBuddy, Inv, InTree;
      page, order := page0, order0;
      var a := addr;
      while order < MAX_ORDER - 1
        invariant order < MAX_ORDER && a == PageToAddr(page)
        invariant Holding(BlockAt(page, order)) && Head(BlockAt(page, order)) == page
      {
        ghost var hole := BlockAt(page, order);
        MergeAddresses(free, live, hole, lists);
        var buddyAddr := GetBuddy(a, order);
        if !(START_ADDR <= buddyAddr < END_ADDR) {
          break;
        }
        var buddyPage := AddrToIndex(buddyAddr);
        ListedFields(next, prev, orders, refCounts, freeLists, freePages, lists, order, buddyPage);
        if orders[buddyPage] != order || refCounts[buddyPage] != 0 {
          break;
        }
        var found := InList(order, buddyPage);
        if !found {
          break;
        }
        MergeHeld(free, live, hole);
        RemoveFromFreeList(buddyPage, order);
        if a > buddyAddr {
          a := buddyAddr;
          page := buddyPage;
        }
        order := order + 1;
      }
    }

    /** buddy_free gives back a live block, or does nothing when the arguments name no page. */
    method Free(addr: nat, order: nat)
      requires initialized ==> Valid()
      requires initialized && order < MAX_ORDER && START_ADDR <= addr < END_ADDR ==>
                 BlockAt(AddrToIndex(addr), order) in live && addr == Addr(BlockAt(AddrToIndex(addr), order))
      modifies this
      ensures initialized == old(initialized) && (initialized ==> Valid())
      ensures live == if old(initialized) && order < MAX_ORDER && START_ADDR <= addr < END_ADDR
                      then old(live) - {BlockAt(AddrToIndex(addr), order)} else old(live)
    {
      hide Head, Anc, AllLinked, Agree, Held, Inv, RefsOk, InTree, UsedPages;
      if !initialized || addr == 0 || order >= MAX_ORDER {
        return;
      }
      if !(START_ADDR <= addr < END_ADDR) {
        return;
      }
      var page := AddrToIndex(addr);
      ghost var b := BlockAt(page, order);
      ReleaseHole(orders, refCounts, free, live, b);
      TakeLive(free, live, b);
      CountFree(free, live, b);
      BlockAtCovers(page, order);
      HoleUnlisted(free, live - {b}, b, lists, page);
      TouchUnlisted(next, prev, orders, refCounts, freeLists, freePages, lists, page, orders[page], 0);
      assert orders[page := orders[page]] == orders;
      if refCounts[page] > 0 {
        refCounts := refCounts[page := refCounts[page] - 1];
      }
      if refCounts[page] > 0 {
        return;
      }
      totalFree := totalFree + Pow2(order);
      totalUsed := totalUsed - Pow2(order);
      live := live - {b};
      var page', order' := Coalesce(addr, page, order);
      PutBack(page', order');
    }

    /** Puts the merged block in hand on its free list. */
    method PutBack(page: nat, order: nat)
      requires order < MAX_ORDER && Holding(BlockAt(page, order)) && Head(BlockAt(page, order)) == page
      requires order < TOP ==> Buddy(BlockAt(page, order)) !in free
      modifies `next, `prev, `orders, `freeLists, `freePages, `lists, `free
      ensures Lists() && Inv(free, live) && RefsOk(orders, refCounts, live)
    {
      hide Head, Anc, AllLinked, Agree, Held, RefsOk;
      ghost var b := BlockAt(page, order);
      CountAlloc(free, live, b);
      BlockAtCovers(page, order);
      InTreePages(b, page);
      HoleUnlisted(free, live, b, lists, page);
      HoleUnreferenced(orders, refCounts, free, live, b, page, order);
      TouchUnlisted(next, prev, orders, refCounts, freeLists, freePages, lists, page, order, 0);
      assert refCounts[page := 0] == refCounts;
      GiveFree(free, live, b);
      orders := orders[page := order];
      AddToFreeList(page, order);
      assert orders == old(orders)[page := order];
    }

    /** A block that is allocated and freed at once leaves the free blocks as they were. */
    method RoundTrip(order: nat)
      requires initialized ==> Valid()
      modifies this
      ensures initialized == old(initialized) && (initialized ==> Valid())
      ensures live == old(live)
      ensures initialized ==> free == old(free) && totalFree == old(totalFree) && totalUsed == old(totalUsed)
    {
      hide Head, Anc, AllLinked, Agree, Inv, RefsOk, InTree, UsedPages;
      ghost var wasFree := free;
      var addr := Alloc(order);
      if addr != 0 {
        AddrIndex(BlockAt(AddrToIndex(addr), order));
        Free(addr, order);
        assert live == old(live);
      }
      if initialized {
        Canonicity(wasFree, free, live);
      }
    }

    /**
     buddy_alloc_pages: the returned block has room for the request exactly when the request is
     at most 1024 pages.
     */
    method AllocPages(numPages: nat) returns (addr: nat, ghost order: nat)
      requires initialized ==> Valid()
      requires numPages < U32
      modifies this
      ensures initialized == old(initialized) && (initialized ==> Valid())
      ensures addr == 0 <==> numPages == 0 || !initialized || Exhausted(old(live), order)
      ensures order == OrderOf(numPages * PAGE_SIZE % U32, 0)
      ensures numPages != 0 ==> (numPages <= Pow2(order) <==> numPages <= 1024)
      ensures addr != 0 ==>
                && START_ADDR <= addr
                && var b := BlockAt(AddrToIndex(addr), order);
                addr == Addr(b) && b !in old(live) && live == old(live) + {b}
    {
      hide Valid, Head, Anc, Exhausted, InTree, PagesOf, UsedPages, Pow2, OrderOf;
      OrderHolds(numPages);
      order := OrderOf(numPages * PAGE_SIZE % U32, 0);
      if numPages == 0 {
        return 0, order;
      }
      var o := GetOrder(numPages * PAGE_SIZE % U32);
      addr := Alloc(o);
    }

    /** buddy_free_pages gives back what `AllocPages` returned for the same page count. */
    method FreePages(addr: nat, numPages: nat)
      requires initialized ==> Valid()
      requires numPages < U32
      requires initialized && numPages != 0 && START_ADDR <= addr < END_ADDR ==>
                 var b := BlockAt(AddrToIndex(addr), OrderOf(numPages * PAGE_SIZE % U32, 0));
                 b in live && addr == Addr(b)
      modifies this
      ensures initialized == old(initialized) && (initialized ==> Valid())
      ensures live == if old(initialized) && numPages != 0 && START_ADDR <= addr < END_ADDR
                      then old(live) - {BlockAt(AddrToIndex(addr), OrderOf(numPages * PAGE_SIZE % U32, 0))}
                      else old(live)
    {
      hide Valid, Head, Anc, InTree, Pow2, OrderOf;
      OrderHolds(numPages);
      if addr == 0 || numPages == 0 {
        return;
      }
      var o := GetOrder(numPages * PAGE_SIZE % U32);
      Free(addr, o);
    }

    /**
     Any run of allocations and frees in which callers free only what they hold:
     the free blocks depend on what is held at the end and on nothing else, and
     once everything has been given back the window is whole again.
     */
    method Run(ops: seq<Op>) returns (held: set<Block>)
      requires initialized && Valid() && live == {}
      modifies this
      ensures initialized && Valid() && live == held
      ensures forall other | Inv(other, held) :: free == other
      ensures held == {} ==> free == Roots(ROOTS) && totalFree == TOTAL_PAGES
    {
      hide Head, Anc, AllLinked, Agree, RefsOk, InTree, PagesOf, Exhausted, BestFit, Roots, Inv;
      held := {};
      for i := 0 to |ops|
        invariant initialized && Valid() && live == held
      {
        match ops[i]
        case OpAlloc(order) =>
          var addr := Alloc(order);
          if addr != 0 {
            held := held + {BlockAt(AddrToIndex(addr), order)};
          }
        case OpFree(b) =>
          if b in held {
            HeldAddress(free, live, b);
            Free(Addr(b), b.k);
            held := held - {b};
          }
      }
      forall other | Inv(other, held)
        ensures free == other
      {
        Canonicity(free, other, held);
      }
      InitialInv();
      assert held == {} ==> UsedPages(live) == {};
    }
  }

  datatype Op = OpAlloc(order: nat) | OpFree(block: Block)

  lemma HeldAddress(free: set<Block>, live: set<Block>, b: Block)
    requires Inv(free, live) && b in live
    ensures b.k < MAX_ORDER && START_ADDR <= Addr(b) < END_ADDR && BlockAt(AddrToIndex(Addr(b)), b.k) == b
  {
    assert b in free + live;
    AddrIndex(b);
    BlockAtHead(b);
  }
}
