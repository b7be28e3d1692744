/**
 The block tree behind the buddy allocator (kernel/mm/buddy.c).

 The managed window, 4 MiB to 128 MiB, is 31 aligned blocks of 4 MiB. A block
 of 2^k pages is the tree node `Block(n, k)`: it holds the pages p whose index
 shifted right by k is n. Its parent is `Block(n / 2, k + 1)` and its buddy is
 the other child of that parent, so every fact below is about halving.
 */
module BuddyTree {
  import opened Bytes

  const MAX_ORDER: nat := 11
  const TOP: nat := MAX_ORDER - 1
  const ROOTS: nat := 31
  const TOTAL_PAGES: nat := 31744

  datatype Block = Block(n: nat, k: nat)

  /** `p` shifted right by `j`. */
  function Anc(p: nat, j: nat): nat {
    if j == 0 then p else Anc(p, j - 1) / 2
  }

  /** The first page of a block. */
  function Head(b: Block): nat
    decreases b.k
  {
    if b.k == 0 then b.n else Head(Block(2 * b.n, b.k - 1))
  }

  predicate InTree(b: Block) {
    b.k <= TOP && Anc(b.n, TOP - b.k) < ROOTS
  }

  predicate Covers(b: Block, p: nat) {
    Anc(p, b.k) == b.n
  }

  /** `m` with its lowest bit inverted. */
  function Flip(m: nat): nat {
    if m % 2 == 0 then m + 1 else m - 1
  }

  function Buddy(b: Block): Block {
    Block(Flip(b.n), b.k)
  }

  function Parent(b: Block): Block {
    Block(b.n / 2, b.k + 1)
  }

  /** `c` is `b` or one of its ancestors. */
  predicate Contains(c: Block, b: Block) {
    b.k <= c.k && Anc(b.n, c.k - b.k) == c.n
  }

  ghost predicate CoveredBy(s: set<Block>, p: nat) {
    exists b :: b in s && Covers(b, p)
  }

  /** Every page of the window lies in exactly one block of `s`. */
  ghost predicate Tiles(s: set<Block>) {
    && (forall b <- s :: InTree(b))
    && (forall p: nat | p < TOTAL_PAGES :: CoveredBy(s, p))
    && Disjoint(s)
  }

  ghost predicate Disjoint(s: set<Block>) {
    forall b, c, p: nat | b in s && c in s && Covers(b, p) && Covers(c, p) :: b == c
  }

  /** No two free buddies below the top order: nothing is left to merge. */
  ghost predicate Canonical(free: set<Block>) {
    forall b | b in free && b.k < TOP :: Buddy(b) !in free
  }

  /** What every reachable state of the allocator satisfies. */
  ghost predicate Inv(free: set<Block>, live: set<Block>) {
    free !! live && Tiles(free + live) && Canonical(free)
  }

  ghost function UsedPages(live: set<Block>): set<nat> {
    set p: nat | p < TOTAL_PAGES && CoveredBy(live, p)
  }

  function PagesOf(b: Block): set<nat> {
    Interval(Head(b), Pow2(b.k))
  }

  /** The n consecutive page numbers from `lo`. */
  function Interval(lo: nat, n: nat): (s: set<nat>)
    ensures forall p: nat :: p in s <==> lo <= p < lo + n
    ensures |s| == n
  {
    if n == 0 then {} else Interval(lo, n - 1) + {lo + n - 1}
  }

  /** The aligned run of pages `b` holds a page of some live block. */
  ghost predicate Blocked(live: set<Block>, b: Block) {
    exists p: nat :: Covers(b, p) && CoveredBy(live, p)
  }

  // ---- arithmetic of halving -------------------------------------------------

  lemma {:induction false} AncAdd(p: nat, i: nat, j: nat)
    ensures Anc(Anc(p, i), j) == Anc(p, i + j)
  {
    if j != 0 { AncAdd(p, i, j - 1); }
  }

  lemma {:induction false} HeadIsMultiple(b: Block)
    ensures Head(b) == b.n * Pow2(b.k)
    decreases b.k
  {
    if b.k != 0 { HeadIsMultiple(Block(2 * b.n, b.k - 1)); }
  }

  lemma {:induction false} HeadSucc(n: nat, k: nat)
    ensures Head(Block(n + 1, k)) == Head(Block(n, k)) + Pow2(k)
    decreases k
  {
    if k != 0 {
      HeadSucc(2 * n, k - 1);
      HeadSucc(2 * n + 1, k - 1);
    }
  }

  /** A block holds exactly the 2^k consecutive pages from its head. */
  lemma {:induction false} CoversInterval(b: Block, p: nat)
    ensures Covers(b, p) <==> Head(b) <= p < Head(b) + Pow2(b.k)
    decreases b.k
  {
    if b.k != 0 {
      var l, r := Block(2 * b.n, b.k - 1), Block(2 * b.n + 1, b.k - 1);
      CoversInterval(l, p);
      CoversInterval(r, p);
      HeadSucc(l.n, l.k);
      assert Anc(p, b.k) == Anc(p, l.k) / 2;
    }
  }

  lemma AncTop(p: nat)
    ensures Anc(p, TOP) == p / 1024
  {
    AncFour(p);
    AncFour(p / 16);
    AncAdd(p, 4, 4);
    AncAdd(p, 8, 2);
    AncTwo(p / 256);
  }

  lemma AncTwo(p: nat)
    ensures Anc(p, 2) == p / 4
  {
    assert Anc(p, 1) == p / 2;
  }

  lemma AncFour(p: nat)
    ensures Anc(p, 4) == p / 16
  {
    AncTwo(p);
    AncTwo(p / 4);
    AncAdd(p, 2, 2);
  }

  lemma InTreePages(b: Block, p: nat)
    requires InTree(b) && Covers(b, p)
    ensures p < TOTAL_PAGES
  {
    AncAdd(p, b.k, TOP - b.k);
    AncTop(p);
  }

  lemma HeadInWindow(b: Block)
    requires InTree(b)
    ensures Covers(b, Head(b)) && Head(b) < TOTAL_PAGES
  {
    CoversInterval(b, Head(b));
    InTreePages(b, Head(b));
  }

  lemma ParentInTree(b: Block)
    requires b.k < TOP
    ensures InTree(Parent(b)) <==> InTree(b)
    ensures InTree(Buddy(b)) <==> InTree(b)
  {
    AncAdd(b.n, 1, TOP - b.k - 1);
    AncAdd(Buddy(b).n, 1, TOP - b.k - 1);
    assert Anc(b.n, 1) == b.n / 2 && Anc(Buddy(b).n, 1) == b.n / 2;
  }

  /** A block and its buddy hold the pages of their parent. */
  lemma ParentCovers(b: Block, p: nat)
    ensures Covers(Parent(b), p) <==> Covers(b, p) || Covers(Buddy(b), p)
    ensures !(Covers(b, p) && Covers(Buddy(b), p))
  {
  }

  lemma ContainsCovers(c: Block, b: Block, p: nat)
    requires Contains(c, b) && Covers(b, p)
    ensures Covers(c, p)
  {
    AncAdd(p, b.k, c.k - b.k);
  }

  // ---- splitting and merging keep a tiling ------------------------------------

  /** Replacing a block by its two children, or two children by their parent, keeps a tiling. */
  lemma SplitTiles(s: set<Block>, b: Block)
    requires b.k < TOP
    requires b !in s && Buddy(b) !in s && Parent(b) !in s
    ensures Tiles(s + {b, Buddy(b)}) <==> Tiles(s + {Parent(b)})
  {
    ParentInTree(b);
    var fine, coarse := s + {b, Buddy(b)}, s + {Parent(b)};
    forall p: nat
      ensures CoveredBy(fine, p) <==> CoveredBy(coarse, p)
    {
      SplitCovered(s, b, p);
    }
    SplitDisjoint(s, b);
  }

  lemma SplitCovered(s: set<Block>, b: Block, p: nat)
    ensures CoveredBy(s + {b, Buddy(b)}, p) <==> CoveredBy(s + {Parent(b)}, p)
  {
    ParentCovers(b, p);
    if CoveredBy(s + {b, Buddy(b)}, p) {
      var c :| c in s + {b, Buddy(b)} && Covers(c, p);
      if c in s { assert c in s + {Parent(b)}; } else { assert Parent(b) in s + {Parent(b)}; }
    }
    if CoveredBy(s + {Parent(b)}, p) {
      var c :| c in s + {Parent(b)} && Covers(c, p);
      if c in s { assert c in s + {b, Buddy(b)}; }
      else { assert b in s + {b, Buddy(b)} && Buddy(b) in s + {b, Buddy(b)}; }
    }
  }

  lemma SplitDisjoint(s: set<Block>, b: Block)
    requires b !in s && Buddy(b) !in s && Parent(b) !in s
    ensures Disjoint(s + {b, Buddy(b)}) <==> Disjoint(s + {Parent(b)})
  {
    var fine, coarse := s + {b, Buddy(b)}, s + {Parent(b)};
    if Disjoint(fine) {
      forall c, d, p: nat | c in coarse && d in coarse && Covers(c, p) && Covers(d, p)
        ensures c == d
      {
        ParentCovers(b, p);
        assert b in fine && Buddy(b) in fine && s <= fine;
      }
    }
    if Disjoint(coarse) {
      forall c, d, p: nat | c in fine && d in fine && Covers(c, p) && Covers(d, p)
        ensures c == d
      {
        ParentCovers(b, p);
        assert Parent(b) in coarse && s <= coarse;
      }
    }
  }

  // ---- completeness and canonicity ----------------------------------------------

  /** Wherever no page is live, some single free block holds the whole aligned run. */
  lemma {:induction false} FreeRunIsFreeBlock(free: set<Block>, live: set<Block>, b: Block)
    requires Inv(free, live) && InTree(b) && !Blocked(live, b)
    ensures exists c :: c in free && Contains(c, b)
    decreases b.k
  {
    if b.k == 0 {
      InTreePages(b, b.n);
      assert Covers(b, b.n) && CoveredBy(free + live, b.n);
      var c :| c in free + live && Covers(c, b.n);
      assert c in live ==> CoveredBy(live, b.n);
      assert c in free && Contains(c, b);
    } else {
      var l, r := Block(2 * b.n, b.k - 1), Block(2 * b.n + 1, b.k - 1);
      assert Parent(l) == Parent(r) == b && Buddy(l) == r;
      ParentInTree(l);
      assert InTree(l) && InTree(r);
      forall p: nat ensures Covers(l, p) || Covers(r, p) ==> Covers(b, p) { ParentCovers(l, p); }
      FreeRunIsFreeBlock(free, live, l);
      FreeRunIsFreeBlock(free, live, r);
      var cl :| cl in free && Contains(cl, l);
      var cr :| cr in free && Contains(cr, r);
      if cl == l && cr == r {
        assert false;
      } else if cl != l {
        AncAdd(l.n, 1, cl.k - b.k);
        assert Contains(cl, b);
      } else {
        AncAdd(r.n, 1, cr.k - b.k);
        assert Contains(cr, b);
      }
    }
  }

  lemma FreeBlockIsUnblocked(free: set<Block>, live: set<Block>, c: Block, b: Block)
    requires Inv(free, live) && c in free && Contains(c, b)
    ensures !Blocked(live, b)
  {
    assert c in free + live;
    forall p: nat, d | Covers(b, p) && d in live
      ensures !Covers(d, p)
    {
      ContainsCovers(c, b, p);
      assert d in free + live;
    }
  }

  /** The first sub-block of order k inside a larger block. */
  lemma {:induction false} SubBlock(c: Block, k: nat) returns (b: Block)
    requires InTree(c) && k <= c.k
    ensures InTree(b) && b.k == k && Contains(c, b)
    decreases c.k - k
  {
    if k == c.k {
      b := c;
    } else {
      var d := SubBlock(c, k + 1);
      b := Block(2 * d.n, k);
      assert Parent(b) == d;
      ParentInTree(b);
      AncAdd(b.n, 1, c.k - k - 1);
      assert Anc(b.n, 1) == d.n;
    }
  }

  /**
   Completeness: there is no free block of order k or more exactly when every
   aligned run of 2^k pages holds a live page.
   */
  lemma Completeness(free: set<Block>, live: set<Block>, k: nat)
    requires Inv(free, live) && k <= TOP
    ensures (forall c | c in free :: c.k < k) <==> (forall b | InTree(b) && b.k == k :: Blocked(live, b))
  {
    if forall c | c in free :: c.k < k {
      forall b | InTree(b) && b.k == k
        ensures Blocked(live, b)
      {
        if !Blocked(live, b) {
          FreeRunIsFreeBlock(free, live, b);
        }
      }
    } else {
      var c :| c in free && k <= c.k;
      assert c in free + live;
      var b := SubBlock(c, k);
      FreeBlockIsUnblocked(free, live, c, b);
    }
  }

  lemma FreeSubset(f: set<Block>, g: set<Block>, live: set<Block>)
    requires Inv(f, live) && Inv(g, live)
    ensures f <= g
  {
    forall b | b in f
      ensures b in g
    {
      assert b in f + live;
      assert Contains(b, b);
      FreeBlockIsUnblocked(f, live, b, b);
      FreeRunIsFreeBlock(g, live, b);
      var c :| c in g && Contains(c, b);
      assert c in g + live && Contains(c, c);
      FreeBlockIsUnblocked(g, live, c, c);
      FreeRunIsFreeBlock(f, live, c);
      var d :| d in f && Contains(d, c);
      HeadInWindow(b);
      ContainsCovers(c, b, Head(b));
      ContainsCovers(d, c, Head(b));
      assert d in f + live;
      assert d == b;
    }
  }

  /** Canonicity: the live allocations alone determine the set of free blocks. */
  lemma Canonicity(f: set<Block>, g: set<Block>, live: set<Block>)
    requires Inv(f, live) && Inv(g, live)
    ensures f == g
  {
    FreeSubset(f, g, live);
    FreeSubset(g, f, live);
  }

  // ---- one block in hand: the states inside an allocation or a free -----------------

  /** The invariant while one block is neither free nor live. */
  ghost predicate Held(free: set<Block>, live: set<Block>, hole: Block) {
    && free !! live && hole !in free && hole !in live
    && Tiles(free + live + {hole})
    && Canonical(free)
  }

  lemma TakeFree(free: set<Block>, live: set<Block>, b: Block)
    requires Inv(free, live) && b in free
    ensures Held(free - {b}, live, b)
  {
    assert free - {b} + live + {b} == free + live;
  }

  lemma TakeLive(free: set<Block>, live: set<Block>, b: Block)
    requires Inv(free, live) && b in live
    ensures Held(free, live - {b}, b)
  {
    assert free + (live - {b}) + {b} == free + live;
  }

  lemma GiveLive(free: set<Block>, live: set<Block>, hole: Block)
    requires Held(free, live, hole)
    ensures Inv(free, live + {hole})
  {
    assert free + (live + {hole}) == free + live + {hole};
  }

  lemma BuddyBuddy(b: Block)
    ensures Buddy(Buddy(b)) == b && Buddy(b) != b && Parent(Buddy(b)) == Parent(b)
  {
  }

  lemma GiveFree(free: set<Block>, live: set<Block>, hole: Block)
    requires Held(free, live, hole) && (hole.k < TOP ==> Buddy(hole) !in free)
    ensures Inv(free + {hole}, live)
  {
    assert (free + {hole}) + live == free + live + {hole};
    forall b | b in free + {hole} && b.k < TOP
      ensures Buddy(b) !in free + {hole}
    {
      BuddyBuddy(b);
    }
  }

  /** No block of a tiling is the parent of another. */
  lemma ParentNotInTiling(s: set<Block>, b: Block)
    requires Tiles(s) && b in s
    ensures Parent(b) !in s
  {
    HeadInWindow(b);
    ParentCovers(b, Head(b));
  }

  lemma ChildNotInTiling(s: set<Block>, b: Block)
    requires Tiles(s) && Parent(b) in s && b.k < TOP
    ensures b !in s
  {
    ParentInTree(b);
    HeadInWindow(b);
    ParentCovers(b, Head(b));
  }

  function Left(b: Block): Block
    requires 0 < b.k
  {
    Block(2 * b.n, b.k - 1)
  }

  /** Splitting the block in hand: the right half becomes free, the left half is kept. */
  lemma SplitHeld(free: set<Block>, live: set<Block>, hole: Block)
    requires Held(free, live, hole) && 0 < hole.k
    ensures Held(free + {Buddy(Left(hole))}, live, Left(hole))
    ensures Head(Left(hole)) == Head(hole)
  {
    var l := Left(hole);
    var r, s := Buddy(l), free + live;
    assert Parent(l) == Parent(r) == hole && Buddy(r) == l;
    assert s + {hole} == s + {Parent(l)};
    assert InTree(hole);
    ChildNotInTiling(s + {hole}, l);
    ChildNotInTiling(s + {hole}, r);
    SplitTiles(s, l);
    assert (free + {r}) + live + {l} == s + {l, r};
    forall b | b in free + {r} && b.k < TOP
      ensures Buddy(b) !in free + {r}
    {
      BuddyBuddy(b);
    }
  }

  /** Merging the block in hand with its free buddy. */
  lemma MergeHeld(free: set<Block>, live: set<Block>, hole: Block)
    requires Held(free, live, hole) && hole.k < TOP && Buddy(hole) in free
    ensures Held(free - {Buddy(hole)}, live, Parent(hole))
    ensures Head(Parent(hole)) == if Head(hole) < Head(Buddy(hole)) then Head(hole) else Head(Buddy(hole))
  {
    var b := Buddy(hole);
    var s := (free - {b}) + live;
    assert free + live + {hole} == s + {hole, b};
    ParentNotInTiling(s + {hole, b}, hole);
    SplitTiles(s, hole);
    assert (free - {b}) + live + {Parent(hole)} == s + {Parent(hole)};
    BuddyHeads(hole);
  }

  lemma BuddyHeads(b: Block)
    ensures Head(Parent(b)) == if Head(b) < Head(Buddy(b)) then Head(b) else Head(Buddy(b))
  {
    var e := Block(2 * (b.n / 2), b.k);
    assert Head(Parent(b)) == Head(e);
    assert b == e || Buddy(b) == e;
    HeadSucc(e.n, e.k);
  }

  /** A page of the block in hand is the first page of no other block. */
  lemma HeldHeads(free: set<Block>, live: set<Block>, hole: Block, p: nat, c: Block)
    requires Held(free, live, hole) && Covers(hole, p) && c in free + live
    ensures Head(c) != p
  {
    HeadInWindow(c);
    assert c in free + live + {hole} && hole in free + live + {hole};
  }

  // ---- counting -------------------------------------------------------------------

  /** One more live block takes exactly its own 2^k pages. */
  lemma UsedPagesAdd(live: set<Block>, b: Block)
    requires InTree(b) && Disjoint(live + {b}) && b !in live
    ensures UsedPages(live + {b}) == UsedPages(live) + PagesOf(b)
    ensures UsedPages(live) !! PagesOf(b)
    ensures |UsedPages(live + {b})| == |UsedPages(live)| + Pow2(b.k)
  {
    forall p: nat
      ensures p in PagesOf(b) <==> Covers(b, p)
      ensures Covers(b, p) ==> p < TOTAL_PAGES && !CoveredBy(live, p)
      ensures CoveredBy(live + {b}, p) <==> CoveredBy(live, p) || Covers(b, p)
    {
      CoversInterval(b, p);
      if Covers(b, p) {
        InTreePages(b, p);
        assert b in live + {b};
        assert forall c | c in live :: c in live + {b};
      }
      UnionCovered(live, b, p);
    }
    assert UsedPages(live + {b}) == UsedPages(live) + PagesOf(b);
  }

  lemma UnionCovered(s: set<Block>, b: Block, p: nat)
    ensures CoveredBy(s + {b}, p) <==> CoveredBy(s, p) || Covers(b, p)
  {
    if CoveredBy(s, p) {
      var c :| c in s && Covers(c, p);
      assert c in s + {b};
    }
    assert b in s + {b};
  }

  // ---- the window at start-up -----------------------------------------------------

  function Roots(i: nat): set<Block> {
    set j: nat | j < i :: Block(j, TOP)
  }

  /** Before anything is allocated, the 31 top blocks are the canonical free set. */
  lemma InitialInv()
    ensures Inv(Roots(ROOTS), {}) && UsedPages({}) == {}
  {
    var free := Roots(ROOTS);
    assert free + {} == free;
    forall p: nat | p < TOTAL_PAGES
      ensures CoveredBy(free, p)
    {
      AncTop(p);
      assert Block(p / 1024, TOP) in free && Covers(Block(p / 1024, TOP), p);
    }
  }
}
