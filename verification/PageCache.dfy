/**
 The memory-mapping page cache of kernel/mm/page_cache.c: a static pool whose
 entries are either on a free list or on one hash chain and on the LRU list.
 Chains and free list share the `hash_next` link.
 */
module PageCache {
  import opened Bytes
  import opened Links

  const POOL: nat := 512
  const HASH: nat := 256

  datatype Key = Key(inode: nat, offset: nat)

  /** page_cache_hash_fn, on 32-bit words. */
  function Hash(k: Key): (h: nat)
    ensures h < HASH
  {
    Xor(Xor(k.inode, k.offset * 16 % U32), k.offset / 8) % HASH
  }

  // ---- structure ---------------------------------------------------------------------------

  ghost predicate LruOk(next: seq<int>, prev: seq<int>, head: int, tail: int, lru: seq<nat>) {
    |next| == POOL && IsList(next, prev, lru) && head == First(lru) && tail == Last(lru)
  }

  /** The hash chains, followed by the free list, all threaded through one link field. */
  ghost predicate TableOk(next: seq<int>, table: seq<int>, freeHead: int, chains: seq<seq<nat>>) {
    |next| == POOL && |table| == HASH && |chains| == HASH + 1 && IsTable(next, table + [freeHead], chains)
  }

  /** Every entry is on the free list, or on the LRU list and on the chain of its key. */
  ghost predicate Members(keys: seq<Key>, lru: seq<nat>, chains: seq<seq<nat>>) {
    && |keys| == POOL && |chains| == HASH + 1
    && (forall e {:trigger e in lru} | e in lru :: e < POOL && e in chains[Hash(keys[e])])
    && (forall h, e {:trigger e in chains[h]} | 0 <= h < HASH && e in chains[h] ::
         e < POOL && e in lru && Hash(keys[e]) == h)
    && (forall e: nat {:trigger e in lru} | e < POOL :: e in chains[HASH] <==> e !in lru)
  }

  /** `index` maps each cached key to its entry: keys are unique. */
  ghost predicate Indexed(index: map<Key, nat>, keys: seq<Key>, lru: seq<nat>) {
    && (forall e {:trigger e in lru} | e in lru :: e < |keys| && keys[e] in index && index[keys[e]] == e)
    && (forall k {:trigger k in index} | k in index :: index[k] in lru && index[k] < |keys| && keys[index[k]] == k)
  }

  /** Access times fall strictly along the LRU list. */
  ghost predicate Aged(time: seq<nat>, clock: nat, lru: seq<nat>) {
    && |time| == POOL
    && (forall i | 0 <= i < |lru| :: lru[i] < POOL && time[lru[i]] <= clock)
    && (forall i, j | 0 <= i < j < |lru| :: time[lru[i]] > time[lru[j]])
  }

  function FrameAt(phys: seq<nat>, e: nat): multiset<nat> {
    if e < |phys| && phys[e] != 0 then multiset{phys[e]} else multiset{}
  }

  /** The frames the cached entries hold, with multiplicity. */
  function Frames(phys: seq<nat>, lru: seq<nat>): multiset<nat> {
    if lru == [] then multiset{} else FrameAt(phys, lru[0]) + Frames(phys, lru[1..])
  }

  lemma {:induction false} FramesDrop(phys: seq<nat>, lru: seq<nat>, i: nat)
    requires i < |lru|
    ensures Frames(phys, lru) == FrameAt(phys, lru[i]) + Frames(phys, DropAt(lru, i))
  {
    var r := DropAt(lru, i);
    if i == 0 {
      assert r == lru[1..];
    } else {
      FramesDrop(phys, lru[1..], i - 1);
      assert r[0] == lru[0] && r[1..] == DropAt(lru[1..], i - 1);
    }
  }

  lemma {:induction false} FramesSame(phys: seq<nat>, phys': seq<nat>, lru: seq<nat>)
    requires forall e | e in lru :: FrameAt(phys', e) == FrameAt(phys, e)
    ensures Frames(phys', lru) == Frames(phys, lru)
  {
    if lru != [] {
      assert lru[0] in lru;
      FramesSame(phys, phys', lru[1..]);
    }
  }

  /** Conservation: every frame handed in is cached, freed, or left to its other users, and only one of these. */
  ghost predicate Balanced(given: multiset<nat>, freed: multiset<nat>, kept: multiset<nat>, phys: seq<nat>,
                           lru: seq<nat>) {
    given == freed + kept + Frames(phys, lru)
  }

  function With(frames: multiset<nat>, phys: seq<nat>, e: nat): multiset<nat> {
    frames + FrameAt(phys, e)
  }

  lemma BalanceDrop(given: multiset<nat>, freed: multiset<nat>, kept: multiset<nat>, phys: seq<nat>, lru: seq<nat>,
                    i: nat)
    requires Balanced(given, freed, kept, phys, lru) && i < |lru|
    ensures Balanced(given, With(freed, phys, lru[i]), kept, phys, DropAt(lru, i))
    ensures Balanced(given, freed, With(kept, phys, lru[i]), phys, DropAt(lru, i))
  {
    FramesDrop(phys, lru, i);
  }

  lemma BalanceTouch(given: multiset<nat>, freed: multiset<nat>, kept: multiset<nat>, phys: seq<nat>, lru: seq<nat>,
                     i: nat)
    requires Balanced(given, freed, kept, phys, lru) && i < |lru|
    ensures Balanced(given, freed, kept, phys, [lru[i]] + DropAt(lru, i))
  {
    FramesDrop(phys, lru, i);
    FramesPush(phys, DropAt(lru, i), lru[i]);
  }

  lemma BalancePush(given: multiset<nat>, freed: multiset<nat>, kept: multiset<nat>, phys: seq<nat>, lru: seq<nat>,
                    e: nat, frame: nat)
    requires Balanced(given, freed, kept, phys, lru) && e < |phys| && e !in lru
    ensures Balanced(With(given, phys[e := frame], e), freed, kept, phys[e := frame], [e] + lru)
  {
    FramesSame(phys, phys[e := frame], lru);
    FramesPush(phys[e := frame], lru, e);
  }

  lemma FramesPush(phys: seq<nat>, lru: seq<nat>, e: nat)
    ensures Frames(phys, [e] + lru) == FrameAt(phys, e) + Frames(phys, lru)
  {
    assert ([e] + lru)[1..] == lru;
  }

  /** A frame is freed at most as often as it was handed in, and less often while an entry still holds it. */
  lemma FreedAtMostOnce(given: multiset<nat>, freed: multiset<nat>, kept: multiset<nat>, phys: seq<nat>, lru: seq<nat>,
                        i: nat)
    requires Balanced(given, freed, kept, phys, lru)
    ensures freed <= given
    ensures i < |lru| && lru[i] < |phys| && phys[lru[i]] != 0 ==> freed[phys[lru[i]]] < given[phys[lru[i]]]
  {
    if i < |lru| { FramesDrop(phys, lru, i); }
  }

  // ---- what the operations do to the lists ---------------------------------------------------

  lemma TouchMembers(keys: seq<Key>, lru: seq<nat>, lru': seq<nat>, chains: seq<seq<nat>>, index: map<Key, nat>)
    requires Members(keys, lru, chains) && Indexed(index, keys, lru) && forall e :: e in lru' <==> e in lru
    ensures Members(keys, lru', chains) && Indexed(index, keys, lru')
  {
    hide Hash;
  }

  lemma TouchAged(time: seq<nat>, clock: nat, lru: seq<nat>, i: nat)
    requires Aged(time, clock, lru) && Distinct(lru) && i < |lru|
    ensures lru[i] < POOL && Aged(time[lru[i] := clock + 1], clock + 1, [lru[i]] + DropAt(lru, i))
  {
    var r := [lru[i]] + DropAt(lru, i);
    var time' := time[lru[i] := clock + 1];
    DropAtDistinct(lru, i);
    forall j | 0 < j < |r|
      ensures r[j] < POOL && r[j] == DropAt(lru, i)[j - 1] && r[j] != lru[i] && time'[r[j]] == time[r[j]] <= clock
    {
      assert DropAt(lru, i)[j - 1] in DropAt(lru, i);
    }
  }

  lemma DropAged(time: seq<nat>, clock: nat, lru: seq<nat>, i: nat)
    requires Aged(time, clock, lru) && i < |lru|
    ensures Aged(time, clock, DropAt(lru, i))
  {
  }

  lemma PushAged(time: seq<nat>, clock: nat, lru: seq<nat>, e: nat)
    requires Aged(time, clock, lru) && e < POOL && e !in lru
    ensures Aged(time[e := clock + 1], clock + 1, [e] + lru)
  {
    var r, time' := [e] + lru, time[e := clock + 1];
    forall j | 0 < j < |r|
      ensures r[j] == lru[j - 1] && r[j] < POOL && time'[r[j]] == time[r[j]] <= clock
    {
      assert lru[j - 1] in lru;
    }
  }

  /** An entry leaves its chain and the LRU list and joins the free list. */
  lemma FreeMembers(keys: seq<Key>, lru: seq<nat>, chains: seq<seq<nat>>, index: map<Key, nat>, i: nat, h: nat, j: nat)
    requires Members(keys, lru, chains) && Indexed(index, keys, lru) && Distinct(lru) && i < |lru| && lru[i] < POOL
    requires h == Hash(keys[lru[i]]) && h < HASH && j < |chains[h]| && chains[h][j] == lru[i] && Distinct(chains[h])
    ensures var chains' := chains[h := DropAt(chains[h], j)];
            && Members(keys, DropAt(lru, i), chains'[HASH := [lru[i]] + chains'[HASH]])
            && Indexed(index - {keys[lru[i]]}, keys, DropAt(lru, i))
  {
    hide Hash;
    DropAtDistinct(lru, i);
    DropAtDistinct(chains[h], j);
    assert lru[i] in lru;
  }

  /** An entry leaves the free list and joins the chain of its new key and the LRU list. */
  lemma CacheMembers(keys: seq<Key>, lru: seq<nat>, chains: seq<seq<nat>>, index: map<Key, nat>, k: Key)
    requires Members(keys, lru, chains) && Indexed(index, keys, lru) && k !in index
    requires chains[HASH] != [] && chains[HASH][0] < POOL && Distinct(chains[HASH])
    ensures var e, h := chains[HASH][0], Hash(k);
            && e !in lru && h < HASH
            && Members(keys[e := k], [e] + lru, chains[HASH := chains[HASH][1..]][h := [e] + chains[h]])
            && Indexed(index[k := e], keys[e := k], [e] + lru)
  {
    var e, h := chains[HASH][0], Hash(k);
    assert e in chains[HASH];
    assert chains[HASH] == [e] + chains[HASH][1..];
    CacheMembersAux(keys, lru, chains, index, k, e, h);
  }

  lemma CacheMembersAux(keys: seq<Key>, lru: seq<nat>, chains: seq<seq<nat>>, index: map<Key, nat>, k: Key, e: nat,
                        h: nat)
    requires Members(keys, lru, chains) && Indexed(index, keys, lru) && k !in index
    requires e < POOL && e !in lru && h == Hash(k) && h < HASH && Distinct(chains[HASH]) && chains[HASH] != []
    requires chains[HASH][0] == e
    ensures Members(keys[e := k], [e] + lru, chains[HASH := chains[HASH][1..]][h := [e] + chains[h]])
    ensures Indexed(index[k := e], keys[e := k], [e] + lru)
  {
    hide Hash;
    assert chains[HASH] == [e] + chains[HASH][1..];
    assert e !in chains[HASH][1..];
  }

  // ---- replacement ------------------------------------------------------------------------------

  /** An entry that eviction passes over: locked, referenced beyond the cache, or (when shrinking) dirty. */
  predicate Busy(locked: seq<bool>, refCount: seq<nat>, dirty: seq<bool>, skipDirty: bool, e: nat) {
    && e < |locked| && e < |refCount| && e < |dirty|
    && (locked[e] || refCount[e] > 1 || (skipDirty && dirty[e]))
  }

  /** The place of the least recently used entry that is not busy; -1 if all are. */
  function Victim(lru: seq<nat>, locked: seq<bool>, refCount: seq<nat>, dirty: seq<bool>, skipDirty: bool): (i: int)
    ensures -1 <= i < |lru|
    ensures i >= 0 ==> !Busy(locked, refCount, dirty, skipDirty, lru[i])
    ensures forall j | i < j < |lru| :: Busy(locked, refCount, dirty, skipDirty, lru[j])
  {
    if lru == [] then -1
    else if !Busy(locked, refCount, dirty, skipDirty, lru[|lru| - 1]) then |lru| - 1
    else Victim(lru[..|lru| - 1], locked, refCount, dirty, skipDirty)
  }

  /** The LRU list after up to `n` evictions. */
  function EvictSeq(lru: seq<nat>, n: nat, locked: seq<bool>, refCount: seq<nat>, dirty: seq<bool>,
                    skipDirty: bool): seq<nat> {
    var i := Victim(lru, locked, refCount, dirty, skipDirty);
    if n == 0 || i < 0 then lru else EvictSeq(DropAt(lru, i), n - 1, locked, refCount, dirty, skipDirty)
  }

  // ---- the cache -----------------------------------------------------------------------------

  /** The data fields of the pool entries, by pool index. */
  datatype Pool = Pool(keys: seq<Key>, phys: seq<nat>, refCount: seq<nat>, time: seq<nat>,
                       dirty: seq<bool>, locked: seq<bool>, uptodate: seq<bool>)

  /** The LRU links of the entries and the list's ends. */
  datatype Lru = Lru(next: seq<int>, prev: seq<int>, head: int, tail: int)

  /** The hash links of the entries, the buckets and the head of the free list. */
  datatype Table = Table(next: seq<int>, buckets: seq<int>, free: int)

  datatype Stats = Stats(hits: nat, misses: nat, evictions: nat, writebacks: nat, totalPages: int)

  /**
   What the links spell: the LRU order, the chains (the free list last), the map
   from key to entry, and the frames handed in, freed, and left to other users.
   */
  datatype View = View(order: seq<nat>, chains: seq<seq<nat>>, index: map<Key, nat>,
                       given: multiset<nat>, freed: multiset<nat>, kept: multiset<nat>)

  predicate Sized(p: Pool) {
    |p.keys| == |p.phys| == |p.refCount| == |p.time| == |p.dirty| == |p.locked| == |p.uptodate| == POOL
  }

  ghost predicate LruValid(l: Lru, order: seq<nat>) {
    LruOk(l.next, l.prev, l.head, l.tail, order)
  }

  ghost predicate TableValid(t: Table, chains: seq<seq<nat>>) {
    TableOk(t.next, t.buckets, t.free, chains)
  }

  ghost predicate PoolValid(p: Pool, clock: nat, v: View) {
    && Sized(p)
    && Members(p.keys, v.order, v.chains)
    && Indexed(v.index, p.keys, v.order)
    && Aged(p.time, clock, v.order)
    && Balanced(v.given, v.freed, v.kept, p.phys, v.order)
  }

  class Cache {
    var pool: Pool
    var lru: Lru
    var table: Table
    var clock: nat
    var stats: Stats
    // The frames given back to the physical allocator, in the order of the calls.
    var released: seq<nat>
    ghost var v: View

    ghost predicate Valid()
      reads this
    {
      && LruValid(lru, v.order)
      && TableValid(table, v.chains)
      && PoolValid(pool, clock, v)
      && stats.totalPages == |v.order|
      && multiset(released) == v.freed
    }

    /** vmm_page_cache_init: every entry is on the free list, in pool order. */
    constructor ()
      ensures Valid() && v.order == [] && v.index == map[] && v.given == v.freed == v.kept == multiset{}
    {
      var free := seq(POOL, i => i);
      pool := Pool(Fill(POOL, Key(0, 0)), Fill(POOL, 0), Fill(POOL, 0), Fill(POOL, 0), Fill(POOL, false),
                   Fill(POOL, false), Fill(POOL, false));
      lru := Lru(Fill(POOL, NULL), Fill(POOL, NULL), NULL, NULL);
      table := Table(seq(POOL, i => if i + 1 < POOL then i + 1 else NULL), Fill(HASH, NULL), 0);
      clock := 0;
      stats := Stats(0, 0, 0, 0, 0);
      released := [];
      v := View([], Fill(HASH, []) + [free], map[], multiset{}, multiset{}, multiset{});
      new;
      forall e: nat | e < POOL ensures e in v.chains[HASH] { assert v.chains[HASH][e] == e; }
    }

    /** lru_touch: moves an entry to the head and stamps it; an entry already there keeps its access time. */
    method LruTouch(e: nat, ghost order: seq<nat>, ghost i: nat)
      requires LruValid(lru, order) && Aged(pool.time, clock, order) && i < |order| && order[i] == e
      modifies `lru, `pool, `clock
      ensures LruValid(lru, [e] + DropAt(order, i)) && Aged(pool.time, clock, [e] + DropAt(order, i))
      ensures pool == old(pool).(time := pool.time)
    {
      hide IsList, Aged, Distinct;
      ListFacts(lru.next, lru.prev, order);
      if e == lru.head {
        HeadIsFirst(order, i);
        return;
      }
      TouchAged(pool.time, clock, order, i);
      TimeSize(pool.time, clock, order);
      clock := clock + 1;
      pool := pool.(time := pool.time[e := clock]);
      MoveToHead(e, order, i);
    }

    method MoveToHead(e: nat, ghost order: seq<nat>, ghost i: nat)
      requires LruValid(lru, order) && i < |order| && order[i] == e && e != lru.head
      modifies `lru
      ensures LruValid(lru, [e] + DropAt(order, i))
    {
      hide IsList, Distinct;
      ListFacts(lru.next, lru.prev, order);
      ghost var r := DropAt(order, i);
      DropAtDistinct(order, i);
      UnlinkKeeps(lru.next, lru.prev, order, i);
      NotFirst(lru.next, lru.prev, order, i);
      PushKeeps(UnlinkNext(lru.next, lru.prev, e), UnlinkPrev(lru.next, lru.prev, e), r, e);
      var next, prev := lru.next, lru.prev;
      if prev[e] != NULL {
        next := next[prev[e] := next[e]];
      }
      if next[e] != NULL {
        prev := prev[next[e] := prev[e]];
      }
      // The source sets a null tail at the end; the tail cannot be null, since `e` was not the head.
      var tail := if e == lru.tail then prev[e] else lru.tail;
      prev := prev[e := NULL];
      next := next[e := lru.head];
      if lru.head != NULL {
        prev := prev[lru.head := e];
      }
      assert next == PushNext(UnlinkNext(lru.next, lru.prev, e), r, e);
      assert prev == PushPrev(UnlinkPrev(lru.next, lru.prev, e), r, e);
      lru := Lru(next, prev, e, tail);
    }

    /** lru_add. */
    method LruAdd(e: nat, ghost order: seq<nat>)
      requires LruValid(lru, order) && Aged(pool.time, clock, order) && e < POOL && e !in order
      modifies `lru, `pool, `clock
      ensures LruValid(lru, [e] + order) && Aged(pool.time, clock, [e] + order)
      ensures pool == old(pool).(time := pool.time)
    {
      hide IsList, Aged;
      ListFacts(lru.next, lru.prev, order);
      TimeSize(pool.time, clock, order);
      PushAged(pool.time, clock, order, e);
      PushKeeps(lru.next, lru.prev, order, e);
      clock := clock + 1;
      pool := pool.(time := pool.time[e := clock]);
      var prev, next := lru.prev[e := NULL], lru.next[e := lru.head];
      if lru.head != NULL {
        prev := prev[lru.head := e];
      }
      lru := Lru(next, prev, e, if lru.tail == NULL then e else lru.tail);
    }

    /** lru_remove. */
    method LruRemove(e: nat, ghost order: seq<nat>, ghost i: nat)
      requires LruValid(lru, order) && i < |order| && order[i] == e
      modifies `lru
      ensures LruValid(lru, DropAt(order, i))
    {
      hide IsList;
      ListFacts(lru.next, lru.prev, order);
      UnlinkKeeps(lru.next, lru.prev, order, i);
      var next, prev, head, tail := lru.next, lru.prev, lru.head, lru.tail;
      if prev[e] != NULL {
        next := next[prev[e] := next[e]];
      } else {
        head := next[e];
      }
      if next[e] != NULL {
        prev := prev[next[e] := prev[e]];
      } else {
        tail := prev[e];
      }
      lru := Lru(next[e := NULL], prev[e := NULL], head, tail);
    }

    /** Unlinks an entry from its hash chain, by a walk over pointers to links. */
    method HashRemove(e: nat, ghost chains: seq<seq<nat>>) returns (ghost j: nat)
      requires TableValid(table, chains) && e < |pool.keys| && e in chains[Hash(pool.keys[e])]
      modifies `table
      ensures var h := Hash(pool.keys[e]);
              j < |chains[h]| && chains[h][j] == e && TableValid(table, chains[h := DropAt(chains[h], j)])
    {
      hide IsTable, Hash, Distinct;
      var h := Hash(pool.keys[e]);
      ghost var s := chains[h];
      ghost var heads := table.buckets + [table.free];
      TableChain(table.next, heads, chains, h);
      var curr, prev := table.buckets[h], NULL;
      j := 0;
      while curr != e
        invariant j < |s| && e in s[j..] && curr == s[j] && prev == if j == 0 then NULL else s[j - 1]
        decreases |s| - j
      {
        assert s[j..] == [s[j]] + s[j + 1..];
        prev, curr := curr, table.next[curr];
        j := j + 1;
      }
      TableRemove(table.next, heads, chains, h, j);
      if prev != NULL {
        table := table.(next := table.next[prev := table.next[curr]]);
      } else {
        table := table.(buckets := table.buckets[h := table.next[curr]]);
      }
      assert table.buckets + [table.free] == heads[h := BypassHead(old(table).next, heads[h], s, j)];
    }

    /** cache_entry_free: pushes an unlinked entry on the free list. */
    method EntryFree(e: nat, ghost chains: seq<seq<nat>>)
      requires TableValid(table, chains) && e < POOL && forall g | 0 <= g <= HASH :: e !in chains[g]
      modifies `table
      ensures TableValid(table, chains[HASH := [e] + chains[HASH]])
    {
      hide IsTable;
      ghost var heads := table.buckets + [table.free];
      TablePush(table.next, heads, chains, HASH, e);
      table := table.(next := table.next[e := table.free], free := e);
      assert table.buckets + [table.free] == heads[HASH := e];
    }

    /** vmm_page_cache_remove: the entry leaves the cache; its frame is freed unless someone else still uses it. */
    method Remove(e: nat, ghost i: nat)
      requires Valid() && i < |v.order| && v.order[i] == e
      modifies `table, `lru, `stats, `released, `v
      ensures Valid() && v == RemovedView(old(v), pool, i)
      ensures released == old(released) + if pool.refCount[e] <= 1 && pool.phys[e] != 0 then [pool.phys[e]] else []
    {
      hide LruValid, TableValid, PoolValid, Hash, RemovedView, Distinct;
      ViewFacts(lru, table, pool, clock, v, i);
      if pool.dirty[e] {
        stats := stats.(writebacks := stats.writebacks + 1);
      }
      ghost var j := HashRemove(e, v.chains);
      RemovedFacts(pool, clock, v, i, j);
      LruRemove(e, v.order, i);
      if pool.refCount[e] <= 1 && pool.phys[e] != 0 {
        released := released + [pool.phys[e]];
      }
      ReleasedFrames(v, pool, i, old(released), released);
      stats := stats.(totalPages := stats.totalPages - 1);
      EntryFree(e, v.chains[Hash(pool.keys[e]) := DropAt(v.chains[Hash(pool.keys[e])], j)]);
      v := RemovedView(v, pool, i);
    }

    /** Walks the chain of `k`; NULL when no entry there has that key. */
    method Find(k: Key) returns (e: int)
      requires Valid()
      ensures if k in v.index then e == v.index[k] else e == NULL
    {
      hide LruValid, IsTable, Hash, Distinct, Members, Indexed, Aged, Balanced;
      var h := Hash(k);
      ghost var s := v.chains[h];
      TableChain(table.next, table.buckets + [table.free], v.chains, h);
      ChainFacts(pool.keys, v.order, v.chains, v.index, k);
      ghost var i := 0;
      e := table.buckets[h];
      while e != NULL
        invariant 0 <= i <= |s| && e == (if i < |s| then s[i] else NULL)
        invariant forall j | 0 <= j < i :: s[j] < POOL && pool.keys[s[j]] != k
        decreases |s| - i
      {
        assert s[i] in s;
        if pool.keys[e] == k {
          return;
        }
        e := table.next[e];
        i := i + 1;
      }
    }

    /** vmm_page_cache_lookup: lookup in the map; a hit becomes the most recently used entry. */
    method Lookup(k: Key) returns (e: int)
      requires Valid()
      modifies `lru, `pool, `clock, `stats, `v
      ensures Valid() && pool == old(pool).(time := pool.time)
      ensures k !in old(v).index ==> e == NULL && v == old(v) && pool == old(pool)
      ensures k in old(v).index ==>
                && e == old(v).index[k]
                && exists i :: Removed(old(v).order, i, e) && v == old(v).(order := [e] + DropAt(old(v).order, i))
    {
      hide LruValid, TableValid, Hash, Distinct, Members, Indexed, Aged, Balanced;
      e := Find(k);
      if e == NULL {
        stats := stats.(misses := stats.misses + 1);
      } else {
        IndexFacts(v.index, pool.keys, v.order, k);
        ghost var i: nat :| i < |v.order| && v.order[i] == e;
        stats := stats.(hits := stats.hits + 1);
        Touched(e, i);
        assert Removed(old(v).order, i, e);
      }
    }

    /** `LruTouch` as a step of the whole state. */
    method Touched(e: nat, ghost i: nat)
      requires Valid() && i < |v.order| && v.order[i] == e
      modifies `lru, `pool, `clock, `v
      ensures Valid() && pool == old(pool).(time := pool.time) && v == old(v).(order := [e] + DropAt(old(v).order, i))
    {
      hide LruOk, TableValid, Hash, Distinct, Members, Indexed, Aged, Balanced;
      LruFacts(lru.next, lru.prev, lru.head, lru.tail, v.order);
      DropAtDistinct(v.order, i);
      BalanceTouch(v.given, v.freed, v.kept, pool.phys, v.order, i);
      TouchMembers(pool.keys, v.order, [e] + DropAt(v.order, i), v.chains, v.index);
      LruTouch(e, v.order, i);
      v := v.(order := [e] + DropAt(v.order, i));
      TimeSize(pool.time, clock, v.order);
    }

    /** vmm_page_cache_mark_dirty. */
    method MarkDirty(e: nat, ghost i: nat)
      requires Valid() && i < |v.order| && v.order[i] == e
      modifies `lru, `pool, `clock, `v
      ensures Valid() && v == old(v).(order := [e] + DropAt(old(v).order, i)) && e < POOL
      ensures pool == old(pool).(time := pool.time, dirty := old(pool).dirty[e := true])
    {
      hide LruValid, TableValid, Hash, Distinct, Members, Indexed, Aged, Balanced;
      EntryFacts(pool.keys, v.order, v.chains, v.index, i);
      pool := pool.(dirty := pool.dirty[e := true]);
      Touched(e, i);
    }

    /** A mapping takes a reference on a cached page (kernel/mm/demand.c). */
    method AddRef(e: nat, ghost i: nat)
      requires Valid() && i < |v.order| && v.order[i] == e
      modifies `pool
      ensures Valid() && e < POOL && pool == old(pool).(refCount := old(pool).refCount[e := old(pool).refCount[e] + 1])
    {
      hide LruValid, TableValid, Hash, Distinct, Members, Indexed, Aged, Balanced;
      EntryFacts(pool.keys, v.order, v.chains, v.index, i);
      pool := pool.(refCount := pool.refCount[e := pool.refCount[e] + 1]);
    }

    /** Walks from the LRU tail to the first entry that is not busy; NULL if there is none. */
    method FindVictim(skipDirty: bool) returns (e: int, ghost i: int)
      requires Valid()
      ensures i == VictimOf(v.order, pool, skipDirty)
      ensures e == var j := VictimOf(v.order, pool, skipDirty); if j < 0 then NULL else v.order[j]
    {
      hide IsList, TableValid, Hash, Distinct, Members, Indexed, Aged, Balanced;
      ListFacts(lru.next, lru.prev, v.order);
      e := lru.tail;
      ghost var n := |v.order|;
      assert v.order[..n] == v.order;
      while e != NULL && (pool.locked[e] || pool.refCount[e] > 1 || (skipDirty && pool.dirty[e]))
        invariant 0 <= n <= |v.order| && e == if n == 0 then NULL else v.order[n - 1]
        invariant VictimOf(v.order, pool, skipDirty) == VictimOf(v.order[..n], pool, skipDirty)
        decreases n
      {
        assert v.order[..n][..n - 1] == v.order[..n - 1];
        e := lru.prev[e];
        n := n - 1;
      }
      i := n - 1;
    }

    /** vmm_page_cache_evict: up to `n` times, the least recently used entry that is not busy goes. */
    method Evict(n: nat) returns (evicted: nat)
      requires Valid()
      modifies `table, `lru, `stats, `released, `v
      ensures Valid() && evicted <= n && v.order == EvictedOrder(old(v).order, n, pool, false)
      ensures |v.order| == |old(v).order| - evicted
      ensures evicted < n ==> VictimOf(v.order, pool, false) < 0
      ensures v.given == old(v).given && Sized(pool) && (forall e | e in old(v).order :: e < POOL)
      ensures forall e | e in old(v).order && (pool.locked[e] || pool.refCount[e] > 1) :: e in v.order
      ensures evicted < n ==> forall e | e in v.order :: e < POOL && (pool.locked[e] || pool.refCount[e] > 1)
    {
      hide LruValid, TableValid, PoolValid, EvictedOrder, VictimOf;
      ghost var order := v.order;
      PoolFacts(lru, pool, clock, v);
      evicted := EvictLoop(n);
      EvictDone(v.order, 0, pool, false);
      EvictKeeps(order, n, pool, false);
    }

    method EvictLoop(n: nat) returns (evicted: nat)
      requires Valid()
      modifies `table, `lru, `stats, `released, `v
      ensures Valid() && evicted <= n && v.order == EvictedOrder(old(v).order, n, pool, false)
      ensures |v.order| == |old(v).order| - evicted && v.given == old(v).given
      ensures evicted < n ==> VictimOf(v.order, pool, false) < 0
    {
      hide LruValid, TableValid, PoolValid, RemovedView, EvictedOrder, VictimOf;
      evicted := 0;
      while evicted < n
        invariant evicted <= n && Valid() && |v.order| == |old(v).order| - evicted && v.given == old(v).given
        invariant EvictedOrder(old(v).order, n, pool, false) == EvictedOrder(v.order, n - evicted, pool, false)
      {
        var victim, i := FindVictim(false);
        if victim == NULL {
          break;
        }
        RemovedOrder(v, pool, i);
        EvictStep(v.order, n - evicted, pool, false);
        Remove(victim, i);
        evicted := evicted + 1;
        stats := stats.(evictions := stats.evictions + 1);
      }
      EvictStops(v.order, n - evicted, pool, false);
    }

    /** vmm_page_cache_shrink: like eviction, but dirty pages stay too. */
    method Shrink(target: nat) returns (n: nat)
      requires Valid()
      modifies `table, `lru, `stats, `released, `v
      ensures Valid() && n <= target && v.order == EvictedOrder(old(v).order, target, pool, true)
      ensures |v.order| == |old(v).order| - n
      ensures n < target ==> VictimOf(v.order, pool, true) < 0
      ensures v.given == old(v).given && Sized(pool) && (forall e | e in old(v).order :: e < POOL)
      ensures forall e | e in old(v).order && (pool.dirty[e] || pool.locked[e] || pool.refCount[e] > 1) :: e in v.order
      ensures n < target ==>
                forall e | e in v.order :: e < POOL && (pool.dirty[e] || pool.locked[e] || pool.refCount[e] > 1)
    {
      hide LruValid, TableValid, PoolValid, EvictedOrder, VictimOf;
      ghost var order := v.order;
      PoolFacts(lru, pool, clock, v);
      n := ShrinkLoop(target);
      EvictDone(v.order, 0, pool, true);
      EvictKeeps(order, target, pool, true);
    }

    method ShrinkLoop(target: nat) returns (n: nat)
      requires Valid()
      modifies `table, `lru, `stats, `released, `v
      ensures Valid() && n <= target && v.order == EvictedOrder(old(v).order, target, pool, true)
      ensures |v.order| == |old(v).order| - n && v.given == old(v).given
      ensures n < target ==> VictimOf(v.order, pool, true) < 0
    {
      hide LruValid, TableValid, PoolValid, RemovedView, EvictedOrder, VictimOf;
      n := 0;
      while n < target && stats.totalPages > 0
        invariant n <= target && Valid() && |v.order| == |old(v).order| - n && v.given == old(v).given
        invariant EvictedOrder(old(v).order, target, pool, true) == EvictedOrder(v.order, target - n, pool, true)
        decreases target - n
      {
        var victim, i := FindVictim(true);
        if victim == NULL {
          break;
        }
        RemovedOrder(v, pool, i);
        EvictStep(v.order, target - n, pool, true);
        Remove(victim, i);
        n := n + 1;
      }
      EvictStops(v.order, target - n, pool, true);
    }

    /** Takes an entry off the free list; its link is cleared. */
    method PopFree(ghost chains: seq<seq<nat>>) returns (e: nat)
      requires TableValid(table, chains) && table.free != NULL
      modifies `table
      ensures chains[HASH] != [] && e == chains[HASH][0] && e < POOL && Distinct(chains[HASH])
      ensures TableValid(table, chains[HASH := chains[HASH][1..]])
      ensures var rest := chains[HASH := chains[HASH][1..]]; forall g | 0 <= g <= HASH :: e !in rest[g]
    {
      hide IsTable, Distinct;
      ghost var heads := table.buckets + [table.free];
      TableChain(table.next, heads, chains, HASH);
      e := table.free;
      TableRemove(table.next, heads, chains, HASH, 0);
      ghost var chains' := chains[HASH := chains[HASH][1..]];
      PoppedElsewhere(table.next, heads, chains);
      assert DropAt(chains[HASH], 0) == chains[HASH][1..];
      assert table.buckets + [table.next[e]] == heads[HASH := table.next[e]];
      TableElsewhere(table.next, table.buckets + [table.next[e]], chains', e, NULL);
      table := table.(free := table.next[e], next := table.next[e := NULL]);
    }

    method HashPush(e: nat, h: nat, ghost chains: seq<seq<nat>>)
      requires TableValid(table, chains) && e < POOL && h < HASH && forall g | 0 <= g <= HASH :: e !in chains[g]
      modifies `table
      ensures TableValid(table, chains[h := [e] + chains[h]])
    {
      hide IsTable;
      ghost var heads := table.buckets + [table.free];
      TablePush(table.next, heads, chains, h, e);
      table := table.(next := table.next[e := table.buckets[h]], buckets := table.buckets[h := e]);
      assert table.buckets + [table.free] == heads[h := e];
    }

    /** Makes sure the free list has an entry, evicting up to four when it is empty. */
    method Reserve() returns (ok: bool)
      requires Valid()
      modifies `table, `lru, `stats, `released, `v
      ensures Valid() && v.given == old(v).given && (ok <==> table.free != NULL)
      ensures v.order == if Full(old(v).order) then EvictedOrder(old(v).order, 4, pool, false) else old(v).order
      ensures !ok <==> Full(old(v).order) && VictimOf(old(v).order, pool, false) < 0
      ensures Survivors(old(v).index, v.index, v.order) && (!ok ==> v.index == old(v).index)
    {
      hide LruOk, TableOk, Members, Indexed, Aged, Balanced, Victim, EvictSeq, Distinct;
      FreeIffRoom(table, v.chains, pool.keys, v.order);
      EvictKeeps(v.order, 4, pool, false);
      LruFacts(lru.next, lru.prev, lru.head, lru.tail, v.order);
      EvictLoses(v.order, 4, pool);
      ghost var before := v;
      SameSurvivors(pool.keys, v.order, v.index);
      if table.free == NULL {
        var n := Evict(4);
        FreeIffRoom(table, v.chains, pool.keys, v.order);
        FewerSurvivors(pool.keys, before.order, before.index, v.order, v.index);
        if v.order == before.order { SameIndex(pool.keys, v.order, before.index, v.index); }
      }
      ok := table.free != NULL;
    }

    /** vmm_page_cache_insert: NULL only when the key is new, no entry is free and every cached entry is busy. */
    method Insert(k: Key, frame: nat) returns (e: int)
      requires Valid()
      modifies `table, `lru, `stats, `released, `v, `pool, `clock
      ensures Valid()
      ensures e == NULL <==> k !in old(v).index && Full(old(v).order) && VictimOf(old(v).order, old(pool), false) < 0
      ensures e == NULL ==> pool == old(pool) && v.index == old(v).index && v.given == old(v).given
      ensures k in old(v).index ==> e == old(v).index[k] && v.given == old(v).given && v.index == old(v).index
      ensures k in old(v).index ==> pool == old(pool).(time := pool.time)
      ensures k !in old(v).index && e != NULL ==>
                && 0 <= e < POOL && k in v.index && v.index[k] == e && Entered(old(pool), pool, k, frame, e)
                && v.given == With(old(v).given, pool.phys, e) && Survivors(old(v).index, v.index - {k}, v.order[1..])
                && v.order == [e] + if Full(old(v).order) then EvictedOrder(old(v).order, 4, old(pool), false)
                                    else old(v).order
    {
      hide LruValid, TableValid, PoolValid, Victim, EvictSeq, Distinct, With;
      e := Lookup(k);
      if e != NULL {
        return;
      }
      var ok := Reserve();
      if !ok {
        return;
      }
      e := Enter(k, frame);
    }

    /** The part of vmm_page_cache_insert that fills a free entry and links it in. */
    method Enter(k: Key, frame: nat) returns (e: nat)
      requires Valid() && k !in v.index && table.free != NULL
      modifies `table, `lru, `stats, `released, `v, `pool, `clock
      ensures Valid() && e < POOL
      ensures v.order == [e] + old(v).order && v.index == old(v).index[k := e]
      ensures v.given == With(old(v).given, pool.phys, e)
      ensures Entered(old(pool), pool, k, frame, e)
    {
      hide LruValid, TableValid, Hash, Members, Indexed, Aged, Balanced, Distinct, With;
      ghost var before := v;
      HashInRange(k);
      MembersSize(pool.keys, v.order, v.chains);
      e := PopFree(v.chains);
      EnterFacts(pool, clock, v, k, frame);
      pool := pool.(keys := pool.keys[e := k], phys := pool.phys[e := frame], refCount := pool.refCount[e := 1],
                    time := pool.time[e := 0], dirty := pool.dirty[e := false], locked := pool.locked[e := false],
                    uptodate := pool.uptodate[e := true]);
      HashPush(e, Hash(k), v.chains[HASH := v.chains[HASH][1..]]);
      LruAdd(e, v.order);
      stats := stats.(totalPages := stats.totalPages + 1);
      v := EnteredView(v, pool, k, e);
      TimeSize(pool.time, clock, v.order);
    }

    /** One bucket of vmm_page_cache_invalidate. */
    method InvalidateBucket(h: nat, inode: nat)
      requires Valid() && h < HASH
      modifies `table, `lru, `stats, `released, `v
      ensures Valid() && Keep(v.order, pool.keys, inode) == Keep(old(v).order, pool.keys, inode)
      ensures |v.chains| == |old(v).chains| == HASH + 1 && NoInode(v.chains[h], pool.keys, inode)
      ensures forall g | 0 <= g < HASH && g != h :: v.chains[g] == old(v).chains[g]
    {
      hide LruValid, TableValid, PoolValid, Hash, RemovedView, Distinct, Keep;
      BucketFacts(lru, table, pool, clock, v, h);
      var entry := table.buckets[h];
      ghost var done: seq<nat>, rest := [], v.chains[h];
      while entry != NULL
        invariant Valid() && |v.chains| == HASH + 1 && entry == First(rest) && v.chains[h] == done + rest
        invariant NoInode(done, pool.keys, inode) && Sized(pool)
        invariant Keep(v.order, pool.keys, inode) == Keep(old(v).order, pool.keys, inode)
        invariant forall g | 0 <= g < HASH && g != h :: v.chains[g] == old(v).chains[g]
        decreases |rest|
      {
        assert v.chains[h][|done|] == entry;
        ghost var i := BucketEntry(lru, table, pool, clock, v, h, done, rest);
        var next := table.next[entry];
        if pool.keys[entry].inode == inode {
          RemovedBucket(pool, clock, v, h, done, rest, i);
          KeepDrop(v.order, pool.keys, inode, i);
          RemovedOrder(v, pool, i);
          Remove(entry, i);
          rest := rest[1..];
        } else {
          done, rest := done + [rest[0]], rest[1..];
        }
        entry := next;
      }
    }

    /** vmm_page_cache_invalidate: exactly the pages of the inode go, and the others keep their order. */
    method InvalidateInode(inode: nat)
      requires Valid()
      modifies `table, `lru, `stats, `released, `v
      ensures Valid() && v.order == Keep(old(v).order, pool.keys, inode)
      ensures NoInode(v.order, pool.keys, inode)
    {
      hide LruValid, TableValid, PoolValid, Hash, Keep;
      for h := 0 to HASH
        invariant Valid() && |v.chains| >= h && Keep(v.order, pool.keys, inode) == Keep(old(v).order, pool.keys, inode)
        invariant forall g | 0 <= g < h :: NoInode(v.chains[g], pool.keys, inode)
      {
        ghost var before := v.chains;
        InvalidateBucket(h, inode);
        assert forall g | 0 <= g < h :: v.chains[g] == before[g];
      }
      AllClear(pool, clock, v, inode);
    }
  }

  predicate NoInode(s: seq<nat>, keys: seq<Key>, inode: nat) {
    forall e | e in s :: e < |keys| && keys[e].inode != inode
  }

  /** The entries of `order` that belong to other inodes. */
  function Keep(order: seq<nat>, keys: seq<Key>, inode: nat): seq<nat> {
    if order == [] then []
    else (if order[0] < |keys| && keys[order[0]].inode == inode then [] else [order[0]]) + Keep(order[1..], keys, inode)
  }

  lemma {:induction false} KeepDrop(order: seq<nat>, keys: seq<Key>, inode: nat, i: nat)
    requires i < |order| && order[i] < |keys| && keys[order[i]].inode == inode
    ensures Keep(DropAt(order, i), keys, inode) == Keep(order, keys, inode)
  {
    if i > 0 {
      KeepDrop(order[1..], keys, inode, i - 1);
      assert DropAt(order, i)[1..] == DropAt(order[1..], i - 1);
    } else {
      assert DropAt(order, i) == order[1..];
    }
  }

  lemma {:induction false} KeepAll(order: seq<nat>, keys: seq<Key>, inode: nat)
    requires NoInode(order, keys, inode)
    ensures Keep(order, keys, inode) == order
  {
    if order != [] {
      assert order == [order[0]] + order[1..];
      assert order[0] in order && forall e | e in order[1..] :: e in order;
      KeepAll(order[1..], keys, inode);
    }
  }

  lemma AllClear(p: Pool, clock: nat, v: View, inode: nat)
    requires PoolValid(p, clock, v) && |v.chains| >= HASH
    requires forall g | 0 <= g < HASH :: NoInode(v.chains[g], p.keys, inode)
    ensures NoInode(v.order, p.keys, inode) && Keep(v.order, p.keys, inode) == v.order
  {
    hide Xor;
    forall e | e in v.order
      ensures e < |p.keys| && p.keys[e].inode != inode
    {
      var g := Hash(p.keys[e]);
      assert e in v.chains[g] && NoInode(v.chains[g], p.keys, inode);
    }
    KeepAll(v.order, p.keys, inode);
  }

  lemma BucketFacts(l: Lru, t: Table, p: Pool, clock: nat, v: View, h: nat)
    requires LruValid(l, v.order) && TableValid(t, v.chains) && PoolValid(p, clock, v) && h < HASH
    ensures |v.chains| == HASH + 1 && |t.buckets| == HASH && t.buckets[h] == First(v.chains[h]) && Sized(p)
  {
    hide IsTable;
    TableChain(t.next, t.buckets + [t.free], v.chains, h);
  }

  lemma BucketEntry(l: Lru, t: Table, p: Pool, clock: nat, v: View, h: nat, done: seq<nat>, rest: seq<nat>)
    returns (i: nat)
    requires LruValid(l, v.order) && TableValid(t, v.chains) && PoolValid(p, clock, v) && h < HASH
    requires |v.chains| == HASH + 1
    requires v.chains[h] == done + rest && rest != []
    ensures rest[0] < POOL == |t.next| && Hash(p.keys[rest[0]]) == h
    ensures i < |v.order| && v.order[i] == rest[0]
    ensures t.next[rest[0]] == First(rest[1..])
  {
    hide IsTable, Hash;
    TableChain(t.next, t.buckets + [t.free], v.chains, h);
    var s := v.chains[h];
    assert s[|done|] == rest[0] && rest[0] in s;
    assert |rest| > 1 ==> s[|done| + 1] == rest[1];
    assert t.next[s[|done|]] == if |done| + 1 < |s| then s[|done| + 1] else NULL;
    i :| 0 <= i < |v.order| && v.order[i] == rest[0];
  }

  lemma RemovedBucket(p: Pool, clock: nat, v: View, h: nat, done: seq<nat>, rest: seq<nat>, i: nat)
    requires PoolValid(p, clock, v) && h < HASH && |v.chains| == HASH + 1 && v.chains[h] == done + rest && rest != []
    requires i < |v.order| && v.order[i] == rest[0] < POOL && Hash(p.keys[rest[0]]) == h && rest[0] !in done
    ensures var w := RemovedView(v, p, i);
            && |w.chains| == HASH + 1 && w.chains[h] == done + rest[1..]
            && forall g | 0 <= g < HASH && g != h :: w.chains[g] == v.chains[g]
  {
    hide Hash, Members, Indexed, Aged, Balanced, With;
    WithoutMiddle(done, rest);
  }

  lemma {:induction false} WithoutMiddle(done: seq<nat>, rest: seq<nat>)
    requires rest != [] && rest[0] !in done
    ensures Without<nat>(done + rest, rest[0]) == done + rest[1..]
  {
    var s := done + rest;
    if done != [] {
      assert s[1..] == done[1..] + rest;
      WithoutMiddle(done[1..], rest);
    } else {
      assert s == rest;
    }
  }

  lemma HashInRange(k: Key)
    ensures Hash(k) < HASH
  {
  }

  /** Every pool entry is cached. */
  ghost predicate Full(order: seq<nat>) {
    forall d: nat | d < POOL :: d in order
  }

  ghost function EnteredView(v: View, p: Pool, k: Key, e: nat): View
    requires |v.chains| == HASH + 1 && v.chains[HASH] != []
  {
    HashInRange(k);
    View([e] + v.order, v.chains[HASH := v.chains[HASH][1..]][Hash(k) := [e] + v.chains[Hash(k)]],
         v.index[k := e], With(v.given, p.phys, e), v.freed, v.kept)
  }

  lemma MembersSize(keys: seq<Key>, order: seq<nat>, chains: seq<seq<nat>>)
    requires Members(keys, order, chains)
    ensures |chains| == HASH + 1
  {
  }

  lemma EnterFacts(p: Pool, clock: nat, v: View, k: Key, frame: nat)
    requires PoolValid(p, clock, v) && k !in v.index && |v.chains| == HASH + 1
    requires v.chains[HASH] != [] && v.chains[HASH][0] < POOL && Distinct(v.chains[HASH])
    ensures var e := v.chains[HASH][0];
            && e !in v.order
            && Members(p.keys[e := k], [e] + v.order,
                       v.chains[HASH := v.chains[HASH][1..]][Hash(k) := [e] + v.chains[Hash(k)]])
            && Indexed(v.index[k := e], p.keys[e := k], [e] + v.order)
            && Aged(p.time[e := 0], clock, v.order)
            && Balanced(With(v.given, p.phys[e := frame], e), v.freed, v.kept, p.phys[e := frame], [e] + v.order)
  {
    hide Hash, With, Members, Indexed, Balanced;
    var e := v.chains[HASH][0];
    HashInRange(k);
    CacheMembers(p.keys, v.order, v.chains, v.index, k);
    BalancePush(v.given, v.freed, v.kept, p.phys, v.order, e, frame);
    AgedElsewhere(p.time, clock, v.order, e);
  }

  lemma AgedElsewhere(time: seq<nat>, clock: nat, lru: seq<nat>, e: nat)
    requires Aged(time, clock, lru) && e < POOL && e !in lru
    ensures Aged(time[e := 0], clock, lru)
  {
    assert forall i | 0 <= i < |lru| :: lru[i] in lru && time[e := 0][lru[i]] == time[lru[i]];
  }

  /** Popping the front of the free list leaves it on no list. */
  lemma PoppedElsewhere(next: seq<int>, heads: seq<int>, chains: seq<seq<nat>>)
    requires IsTable(next, heads, chains) && |chains| == HASH + 1 && chains[HASH] != [] && Distinct(chains[HASH])
    ensures var rest := chains[HASH := chains[HASH][1..]]; forall g | 0 <= g <= HASH :: chains[HASH][0] !in rest[g]
  {
    var e := chains[HASH][0];
    assert e in chains[HASH];
    assert chains[HASH] == [e] + chains[HASH][1..];
  }

  lemma FreeIffRoom(t: Table, chains: seq<seq<nat>>, keys: seq<Key>, order: seq<nat>)
    requires TableValid(t, chains) && Members(keys, order, chains)
    ensures t.free == NULL <==> Full(order)
  {
    hide Hash, IsTable;
    TableChain(t.next, t.buckets + [t.free], chains, HASH);
    if t.free != NULL {
      var e: nat := chains[HASH][0];
      assert e in chains[HASH] && e < POOL && e !in order;
    } else {
      forall d: nat | d < POOL ensures d in order { assert d !in chains[HASH]; }
    }
  }

  /** Evictions take entries away, and never a busy one. */
  lemma {:induction false} EvictKeeps(order: seq<nat>, n: nat, p: Pool, skipDirty: bool)
    ensures forall d | d in EvictedOrder(order, n, p, skipDirty) :: d in order
    ensures forall d | d in order && d < |p.locked| && d < |p.refCount| && d < |p.dirty| &&
                       (p.locked[d] || p.refCount[d] > 1 || (skipDirty && p.dirty[d])) ::
              d in EvictedOrder(order, n, p, skipDirty)
  {
    var i := VictimOf(order, p, skipDirty);
    if n != 0 && i >= 0 {
      var r := DropAt(order, i);
      assert forall d | d in r :: d in order;
      forall d | d in order && d != order[i]
        ensures d in r
      {
        var j :| 0 <= j < |order| && order[j] == d;
        assert d == r[if j < i then j else j - 1];
      }
      EvictKeeps(r, n - 1, p, skipDirty);
    }
  }

  lemma PoolFacts(l: Lru, p: Pool, clock: nat, v: View)
    requires LruValid(l, v.order) && PoolValid(p, clock, v)
    ensures Sized(p) && Distinct(v.order) && forall e | e in v.order :: e < POOL
  {
    hide Members, Indexed, Aged, Balanced;
    LruFacts(l.next, l.prev, l.head, l.tail, v.order);
  }

  lemma EvictStep(order: seq<nat>, n: nat, p: Pool, skipDirty: bool)
    requires 0 < n && VictimOf(order, p, skipDirty) >= 0
    ensures EvictedOrder(order, n, p, skipDirty)
         == EvictedOrder(DropAt(order, VictimOf(order, p, skipDirty)), n - 1, p, skipDirty)
  {
    hide Victim;
  }

  lemma EvictStops(order: seq<nat>, n: nat, p: Pool, skipDirty: bool)
    ensures n == 0 || VictimOf(order, p, skipDirty) < 0 ==> EvictedOrder(order, n, p, skipDirty) == order
    ensures order == [] ==> VictimOf(order, p, skipDirty) < 0
  {
  }

  /** There is no victim exactly when every entry is locked, referenced or, when shrinking, dirty. */
  lemma EvictDone(order: seq<nat>, n: nat, p: Pool, skipDirty: bool)
    ensures n == 0 || VictimOf(order, p, skipDirty) < 0 ==> EvictedOrder(order, n, p, skipDirty) == order
    ensures VictimOf(order, p, skipDirty) < 0 <==> forall e | e in order ::
              e < |p.locked| && e < |p.refCount| && e < |p.dirty|
              && (p.locked[e] || p.refCount[e] > 1 || (skipDirty && p.dirty[e]))
  {
    if VictimOf(order, p, skipDirty) >= 0 { assert order[VictimOf(order, p, skipDirty)] in order; }
  }

  /** Evictions go from the least recently used end: an entry older than one that left stays only if it is busy. */
  lemma {:induction false} EvictOldest(order: seq<nat>, n: nat, p: Pool, skipDirty: bool, i: nat, j: nat)
    requires Distinct(order) && i < j < |order| && order[i] !in EvictedOrder(order, n, p, skipDirty)
    requires order[j] in EvictedOrder(order, n, p, skipDirty)
    ensures var e := order[j];
            e < |p.locked| && e < |p.refCount| && e < |p.dirty|
            && (p.locked[e] || p.refCount[e] > 1 || (skipDirty && p.dirty[e]))
  {
    hide EvictSeq, Victim;
    var v := VictimOf(order, p, skipDirty);
    EvictDone(order, n, p, skipDirty);
    if n != 0 && v >= 0 {
      var r := DropAt(order, v);
      DropAtDistinct(order, v);
      EvictStep(order, n, p, skipDirty);
      EvictKeeps(r, n - 1, p, skipDirty);
      if j < v {
        assert r[i] == order[i] && r[j] == order[j];
        EvictOldest(r, n - 1, p, skipDirty, i, j);
      }
    }
  }

  /** If anything can be evicted, eviction makes room. */
  lemma EvictLoses(order: seq<nat>, n: nat, p: Pool)
    requires Distinct(order) && 0 < n
    ensures VictimOf(order, p, false) < 0 ==> EvictedOrder(order, n, p, false) == order
    ensures VictimOf(order, p, false) >= 0 && order[VictimOf(order, p, false)] < POOL ==>
              !Full(EvictedOrder(order, n, p, false))
  {
    var i := VictimOf(order, p, false);
    if i >= 0 {
      DropAtDistinct(order, i);
      EvictKeeps(DropAt(order, i), n - 1, p, false);
      assert order[i] !in EvictedOrder(order, n, p, false);
    }
  }

  /** Of the keys in `index` those whose entry is on `order` are in `index'`, with the same entry, and no others. */
  ghost predicate Survivors(index: map<Key, nat>, index': map<Key, nat>, order: seq<nat>) {
    && (forall k | k in index' :: k in index && index'[k] == index[k])
    && (forall k | k in index && index[k] in order :: k in index')
  }

  lemma FewerSurvivors(keys: seq<Key>, order: seq<nat>, index: map<Key, nat>, order': seq<nat>, index': map<Key, nat>)
    requires Indexed(index, keys, order) && Indexed(index', keys, order') && forall d | d in order' :: d in order
    ensures Survivors(index, index', order')
  {
  }

  lemma SameIndex(keys: seq<Key>, order: seq<nat>, index: map<Key, nat>, index': map<Key, nat>)
    requires Indexed(index, keys, order) && Indexed(index', keys, order)
    ensures index == index'
  {
  }

  lemma SameSurvivors(keys: seq<Key>, order: seq<nat>, index: map<Key, nat>)
    requires Indexed(index, keys, order)
    ensures Survivors(index, index, order)
  {
  }

  /** Entry `e` has been filled, and no other. */
  predicate Entered(p: Pool, p': Pool, k: Key, frame: nat, e: nat) {
    && Sized(p) && Sized(p') && e < POOL
    && p' == Pool(p.keys[e := k], p.phys[e := frame], p.refCount[e := 1], p'.time,
                  p.dirty[e := false], p.locked[e := false], p.uptodate[e := true])
  }

  ghost predicate Removed<T>(s: seq<T>, i: nat, x: T) {
    i < |s| && s[i] == x
  }

  function VictimOf(order: seq<nat>, p: Pool, skipDirty: bool): (i: int)
    ensures -1 <= i < |order|
  {
    Victim(order, p.locked, p.refCount, p.dirty, skipDirty)
  }

  function EvictedOrder(order: seq<nat>, n: nat, p: Pool, skipDirty: bool): seq<nat> {
    EvictSeq(order, n, p.locked, p.refCount, p.dirty, skipDirty)
  }

  lemma RemovedOrder(v: View, p: Pool, i: nat)
    requires i < |v.order|
    ensures RemovedView(v, p, i).order == DropAt(v.order, i) && RemovedView(v, p, i).given == v.given
  {
  }

  /** The view after the entry at place `i` of the LRU order has been removed. */
  ghost function RemovedView(v: View, p: Pool, i: nat): View
    requires i < |v.order|
  {
    var e := v.order[i];
    var k := if e < |p.keys| then p.keys[e] else Key(0, 0);
    var h := Hash(k);
    var last := e < |p.refCount| && p.refCount[e] <= 1;
    View(DropAt(v.order, i),
         if h < |v.chains| == HASH + 1
         then v.chains[h := Without<nat>(v.chains[h], e)][HASH := [e] + v.chains[HASH]]
         else v.chains,
         v.index - {k}, v.given,
         if last then With(v.freed, p.phys, e) else v.freed, if last then v.kept else With(v.kept, p.phys, e))
  }

  lemma ReleasedFrames(v: View, p: Pool, i: nat, before: seq<nat>, after: seq<nat>)
    requires i < |v.order| && v.order[i] < POOL && Sized(p) && multiset(before) == v.freed
    requires var e := v.order[i]; after == if p.refCount[e] <= 1 && p.phys[e] != 0 then before + [p.phys[e]] else before
    ensures multiset(after) == RemovedView(v, p, i).freed
  {
  }

  lemma ViewFacts(l: Lru, t: Table, p: Pool, clock: nat, v: View, i: nat)
    requires LruValid(l, v.order) && TableValid(t, v.chains) && PoolValid(p, clock, v) && i < |v.order|
    ensures Sized(p) && v.order[i] < POOL && Distinct(v.order) && |v.chains| == HASH + 1
    ensures var h := Hash(p.keys[v.order[i]]); v.order[i] in v.chains[h] && Distinct(v.chains[h])
  {
    hide Hash, IsList, IsTable;
    EntryFacts(p.keys, v.order, v.chains, v.index, i);
    ListFacts(l.next, l.prev, v.order);
    TableChain(t.next, t.buckets + [t.free], v.chains, Hash(p.keys[v.order[i]]));
  }

  lemma RemovedFacts(p: Pool, clock: nat, v: View, i: nat, j: nat)
    requires PoolValid(p, clock, v) && i < |v.order| && Distinct(v.order) && v.order[i] < POOL
    requires var h := Hash(p.keys[v.order[i]]);
             j < |v.chains[h]| && v.chains[h][j] == v.order[i] && Distinct(v.chains[h])
    ensures var e, h := v.order[i], Hash(p.keys[v.order[i]]);
            var chains' := v.chains[h := DropAt(v.chains[h], j)];
            && PoolValid(p, clock, RemovedView(v, p, i))
            && RemovedView(v, p, i).order == DropAt(v.order, i)
            && RemovedView(v, p, i).chains == chains'[HASH := [e] + chains'[HASH]]
            && (forall g | 0 <= g <= HASH :: e !in chains'[g])
  {
    hide Xor, Members, Indexed, Aged, Balanced, With, Distinct;
    EntryFacts(p.keys, v.order, v.chains, v.index, i);
    var h := Hash(p.keys[v.order[i]]);
    WithoutIsDrop<nat>(v.chains[h], j);
    FreeMembers(p.keys, v.order, v.chains, v.index, i, h, j);
    Unlisted(p.keys, v.order, v.chains, v.chains[h := DropAt(v.chains[h], j)], i, h, j);
    DropAged(p.time, clock, v.order, i);
    BalanceDrop(v.given, v.freed, v.kept, p.phys, v.order, i);
  }

  lemma EntryFacts(keys: seq<Key>, lru: seq<nat>, chains: seq<seq<nat>>, index: map<Key, nat>, i: nat)
    requires Members(keys, lru, chains) && Indexed(index, keys, lru) && i < |lru|
    ensures lru[i] < POOL == |keys| && |chains| == HASH + 1 && lru[i] in chains[Hash(keys[lru[i]])]
    ensures keys[lru[i]] in index
  {
    hide Hash;
    assert lru[i] in lru;
  }

  lemma ChainFacts(keys: seq<Key>, lru: seq<nat>, chains: seq<seq<nat>>, index: map<Key, nat>, k: Key)
    requires Members(keys, lru, chains) && Indexed(index, keys, lru)
    ensures |keys| == POOL && |chains| == HASH + 1
    ensures forall e | e in chains[Hash(k)] :: e < POOL && keys[e] in index && index[keys[e]] == e
    ensures k in index ==> index[k] in chains[Hash(k)] && index[k] < POOL && keys[index[k]] == k
  {
    hide Xor;
    var h := Hash(k);
  }

  lemma IndexFacts(index: map<Key, nat>, keys: seq<Key>, lru: seq<nat>, k: Key)
    requires Indexed(index, keys, lru) && k in index
    ensures index[k] in lru
  {
  }

  lemma LruFacts(next: seq<int>, prev: seq<int>, head: int, tail: int, lru: seq<nat>)
    requires LruOk(next, prev, head, tail, lru)
    ensures Distinct(lru) && forall i | 0 <= i < |lru| :: lru[i] < POOL
  {
  }

  /** Once unlinked from its own chain, an entry is on no chain. */
  lemma Unlisted(keys: seq<Key>, lru: seq<nat>, chains: seq<seq<nat>>, chains': seq<seq<nat>>, i: nat, h: nat, j: nat)
    requires Members(keys, lru, chains) && i < |lru| && lru[i] < POOL && h == Hash(keys[lru[i]]) && h < HASH
    requires j < |chains[h]| && chains[h][j] == lru[i] && Distinct(chains[h])
    requires chains' == chains[h := DropAt(chains[h], j)]
    ensures forall g | 0 <= g <= HASH :: lru[i] !in chains'[g]
  {
    hide Hash;
    DropAtDistinct(chains[h], j);
    assert lru[i] in lru;
  }

  lemma TimeSize(time: seq<nat>, clock: nat, lru: seq<nat>)
    requires Aged(time, clock, lru)
    ensures |time| == POOL
  {
  }

  lemma NotFirst(next: seq<int>, prev: seq<int>, s: seq<nat>, i: nat)
    requires IsList(next, prev, s) && i < |s| && s[i] != First(s)
    ensures 0 < i && prev[s[i]] == s[i - 1] && First(DropAt(s, i)) == First(s) && First(s) != NULL
    ensures s[i] == Last(s) <==> next[s[i]] == NULL
  {
  }
}
