/**
 The implementation of the page cache in kernel/fs_cache.c: a static pool of
 entries, each on one hash chain and on one doubly linked LRU list.
 */
module FsCache {
  import opened Bytes
  import opened Links
  import opened Options
  import opened Sparse
  import opened CacheSpec

  const HASH: nat := 256

  /** page_cache_hash, on 32-bit words. */
  function Hash(k: Key): (h: nat)
    ensures h < HASH
  {
    Xor(k.file * 0x1_0000 % U32, k.page) % HASH
  }

  // ---- the pool against the map ------------------------------------------------------------

  /** Entries with data are exactly those on the LRU list and on the chain of their key; keys are unique. */
  ghost predicate Members(keys: seq<Key>, data: seq<Data>, lru: seq<nat>, chains: seq<seq<nat>>) {
    && |keys| == |data| == CAPACITY && |chains| == HASH
    && (forall e {:trigger e in lru} | e in lru :: e < CAPACITY && data[e].Some?)
    && (forall e: nat {:trigger data[e]} | e < CAPACITY && data[e].Some? :: e in lru && e in chains[Hash(keys[e])])
    && (forall h, e {:trigger e in chains[h]} | 0 <= h < HASH && e in chains[h] ::
         e < CAPACITY && data[e].Some? && Hash(keys[e]) == h)
    && (forall d, e {:trigger d in lru, e in lru} | d in lru && e in lru && keys[d] == keys[e] :: d == e)
  }

  function KeyAt(keys: seq<Key>, e: nat): Key {
    if e < |keys| then keys[e] else Key(0, 0)
  }

  function KeysOf(keys: seq<Key>, lru: seq<nat>): (r: seq<Key>)
    ensures |r| == |lru| && forall i | 0 <= i < |lru| :: r[i] == KeyAt(keys, lru[i])
  {
    seq(|lru|, i requires 0 <= i < |lru| => KeyAt(keys, lru[i]))
  }

  lemma KeysOfDrop(keys: seq<Key>, lru: seq<nat>, i: nat)
    requires i < |lru|
    ensures KeysOf(keys, DropAt(lru, i)) == DropAt(KeysOf(keys, lru), i)
    ensures KeysOf(keys, [lru[i]] + DropAt(lru, i)) == [KeyAt(keys, lru[i])] + DropAt(KeysOf(keys, lru), i)
  {
    hide KeysOf;
  }

  lemma KeysOfPush(keys: seq<Key>, lru: seq<nat>, e: nat, k: Key)
    requires e < |keys| && e !in lru
    ensures KeysOf(keys[e := k], [e] + lru) == [k] + KeysOf(keys, lru)
  {
    hide KeysOf;
  }

  /** The pool holds the pages of `st`, in its order. */
  ghost predicate Mirror(st: State, keys: seq<Key>, data: seq<Data>, dirty: seq<bool>, locked: seq<bool>,
                         lru: seq<nat>) {
    && |keys| == |data| == |dirty| == |locked| == CAPACITY
    && (forall e {:trigger e in lru} | e in lru :: e < CAPACITY && data[e].Some? && keys[e] in st.pages
                               && st.pages[keys[e]] == Page(data[e].value, dirty[e], locked[e]))
    && st.order == KeysOf(keys, lru)
    && (forall k | k in st.pages :: k in st.order)
  }

  function DirtyKeys(s: State): set<Key> {
    set k | k in s.pages && s.pages[k].dirty
  }

  lemma OrderDistinct(st: State, keys: seq<Key>, data: seq<Data>, dirty: seq<bool>, locked: seq<bool>, lru: seq<nat>,
                      chains: seq<seq<nat>>)
    requires Members(keys, data, lru, chains) && Mirror(st, keys, data, dirty, locked, lru) && Distinct(lru)
    ensures Distinct(st.order) && forall k | k in st.pages :: k in st.order
  {
    hide Hash;
    forall i, j | 0 <= i < j < |lru|
      ensures st.order[i] != st.order[j]
    {
      assert lru[i] in lru && lru[j] in lru;
    }
  }

  lemma OrderMember(st: State, keys: seq<Key>, data: seq<Data>, dirty: seq<bool>, locked: seq<bool>, lru: seq<nat>,
                    k: Key) returns (e: nat)
    requires Mirror(st, keys, data, dirty, locked, lru) && k in st.pages
    ensures e in lru && e < CAPACITY && keys[e] == k
  {
    var i :| 0 <= i < |st.order| && st.order[i] == k;
    e := lru[i];
  }

  lemma TouchMembers(keys: seq<Key>, data: seq<Data>, lru: seq<nat>, lru': seq<nat>, chains: seq<seq<nat>>)
    requires Members(keys, data, lru, chains) && forall e :: e in lru' <==> e in lru
    ensures Members(keys, data, lru', chains)
  {
    hide Hash;
  }

  lemma TouchMirror(st: State, keys: seq<Key>, data: seq<Data>, dirty: seq<bool>, locked: seq<bool>, lru: seq<nat>,
                    i: nat)
    requires Mirror(st, keys, data, dirty, locked, lru) && Distinct(lru) && Distinct(st.order) && i < |lru|
    ensures lru[i] < CAPACITY && Mirror(Find(st, keys[lru[i]]), keys, data, dirty, locked, [lru[i]] + DropAt(lru, i))
    ensures forall e :: e in [lru[i]] + DropAt(lru, i) <==> e in lru
  {
    hide KeysOf, Distinct;
    assert lru[i] in lru;
    KeysOfDrop(keys, lru, i);
    WithoutIsDrop(st.order, i);
    DropAtDistinct(lru, i);
    DropAtDistinct(st.order, i);
  }

  lemma DetachMembers(keys: seq<Key>, data: seq<Data>, lru: seq<nat>, chains: seq<seq<nat>>, i: nat, h: nat, j: nat)
    requires Members(keys, data, lru, chains) && Distinct(lru) && i < |lru| && lru[i] < CAPACITY
    requires h == Hash(keys[lru[i]])
    requires j < |chains[h]| && chains[h][j] == lru[i] && Distinct(chains[h])
    ensures Members(keys, data[lru[i] := None], DropAt(lru, i), chains[h := DropAt(chains[h], j)])
  {
    hide Hash;
    DropAtDistinct(lru, i);
    DropAtDistinct(chains[h], j);
  }

  lemma DetachMirror(st: State, keys: seq<Key>, data: seq<Data>, dirty: seq<bool>, locked: seq<bool>, lru: seq<nat>,
                     i: nat)
    requires Mirror(st, keys, data, dirty, locked, lru) && Distinct(lru) && Distinct(st.order) && i < |lru|
    ensures lru[i] < CAPACITY
    ensures Mirror(Drop(st, keys[lru[i]]), keys, data[lru[i] := None], dirty, locked, DropAt(lru, i))
  {
    hide KeysOf, Distinct, DropAt, Without;
    assert lru[i] in lru;
    DropFacts(st.order, keys, lru, i);
  }

  lemma DropFacts(order: seq<Key>, keys: seq<Key>, lru: seq<nat>, i: nat)
    requires i < |lru| && Distinct(lru) && Distinct(order) && order == KeysOf(keys, lru)
    requires forall e | e in lru :: e < |keys|
    ensures lru[i] in lru && Without(order, keys[lru[i]]) == KeysOf(keys, DropAt(lru, i))
    ensures forall k | k in order && k != keys[lru[i]] :: k in Without(order, keys[lru[i]])
    ensures forall e | e in DropAt(lru, i) :: e in lru && e != lru[i] && keys[e] != keys[lru[i]]
  {
    hide KeysOf, Distinct;
    assert lru[i] in lru;
    KeysOfDrop(keys, lru, i);
    WithoutIsDrop(order, i);
    DropAtDistinct(lru, i);
    DropAtDistinct(order, i);
    KeysElsewhere(keys, lru, i);
    forall e | e in DropAt(lru, i)
      ensures e in lru && keys[e] != keys[lru[i]]
    {
      assert KeyAt(keys, e) != keys[lru[i]];
    }
  }

  lemma KeysElsewhere(keys: seq<Key>, lru: seq<nat>, i: nat)
    requires i < |lru| && Distinct(KeysOf(keys, lru)) && Distinct(lru)
    ensures forall e | e in DropAt(lru, i) :: KeyAt(keys, e) != KeyAt(keys, lru[i])
  {
    hide KeysOf;
    var r := KeysOf(keys, lru);
    assert forall j | 0 <= j < |lru| && j != i :: r[j] != r[i];
  }

  lemma AttachMembers(keys: seq<Key>, data: seq<Data>, lru: seq<nat>, chains: seq<seq<nat>>, e: nat, k: Key,
                      d: seq<byte>)
    requires Members(keys, data, lru, chains) && e < CAPACITY && data[e].None? && forall c | c in lru :: keys[c] != k
    ensures Members(keys[e := k], data[e := Some(d)], [e] + lru, chains[Hash(k) := [e] + chains[Hash(k)]])
    ensures e !in lru && forall h | 0 <= h < HASH :: e !in chains[h]
  {
    hide Hash;
  }

  lemma AttachMirror(st: State, keys: seq<Key>, data: seq<Data>, dirty: seq<bool>, locked: seq<bool>, lru: seq<nat>,
                     e: nat, k: Key, d: seq<byte>)
    requires Mirror(st, keys, data, dirty, locked, lru) && e < CAPACITY && data[e].None? && k !in st.pages
    ensures Mirror(State(st.pages[k := Page(d, false, false)], [k] + st.order),
                   keys[e := k], data[e := Some(d)], dirty[e := false], locked[e := false], [e] + lru)
    ensures forall c | c in lru :: keys[c] != k
  {
    hide KeysOf;
    assert e !in lru;
    KeysOfPush(keys, lru, e, k);
  }

  ghost predicate LruOk(next: seq<int>, prev: seq<int>, head: int, tail: int, lru: seq<nat>) {
    |next| == CAPACITY && IsList(next, prev, lru) && head == First(lru) && tail == Last(lru)
  }

  ghost predicate TableOk(next: seq<int>, table: seq<int>, chains: seq<seq<nat>>) {
    |next| == CAPACITY && |table| == |chains| == HASH && IsTable(next, table, chains)
  }

  // ---- the cache -----------------------------------------------------------------------------

  class Cache {
    /** Entry fields, by pool index. */
    var keys: seq<Key>
    var data: seq<Data>
    var dirty: seq<bool>
    var locked: seq<bool>
    var uptodate: seq<bool>
    var hashNext: seq<int>
    var lruPrev: seq<int>
    var lruNext: seq<int>

    var table: seq<int>
    var lruHead: int
    var lruTail: int
    var numPages: int
    var numDirty: int
    var hits: nat
    var misses: nat

    /** The LRU list and the hash chains as sequences, and the cache seen from outside. */
    ghost var lru: seq<nat>
    ghost var chains: seq<seq<nat>>
    ghost var st: State

    ghost predicate Lists()
      reads this
    {
      |uptodate| == CAPACITY && LruOk(lruNext, lruPrev, lruHead, lruTail, lru) && TableOk(hashNext, table, chains)
    }

    /** Structure, contents and the page counter. */
    ghost predicate Core()
      reads this
    {
      && Lists()
      && Members(keys, data, lru, chains)
      && Mirror(st, keys, data, dirty, locked, lru)
      && numPages == |st.order|
    }

    /** The state inside an operation, where a new page may not be up to date yet. */
    ghost predicate Inner()
      reads this
    {
      Core() && numDirty == |DirtyKeys(st)|
    }

    ghost predicate Valid()
      reads this
    {
      Inner() && forall e: nat | e < CAPACITY && data[e].Some? :: uptodate[e]
    }

    method LruRemove(e: nat, ghost i: nat)
      requires Lists() && i < |lru| && lru[i] == e
      modifies `lruNext, `lruPrev, `lruHead, `lruTail, `lru
      ensures Lists() && lru == DropAt(old(lru), i)
    {
      hide IsTable, IsList, Distinct;
      UnlinkKeeps(lruNext, lruPrev, lru, i);
      ListFacts(lruNext, lruPrev, lru);
      if lruPrev[e] != NULL {
        lruNext := lruNext[lruPrev[e] := lruNext[e]];
      } else {
        lruHead := lruNext[e];
      }
      if lruNext[e] != NULL {
        lruPrev := lruPrev[lruNext[e] := lruPrev[e]];
      } else {
        lruTail := lruPrev[e];
      }
      lruPrev := lruPrev[e := NULL];
      lruNext := lruNext[e := NULL];
      lru := DropAt(lru, i);
    }

    method LruAdd(e: nat)
      requires Lists() && e < CAPACITY && e !in lru
      modifies `lruNext, `lruPrev, `lruHead, `lruTail, `lru
      ensures Lists() && lru == [e] + old(lru)
    {
      hide IsTable, IsList;
      PushKeeps(lruNext, lruPrev, lru, e);
      ListFacts(lruNext, lruPrev, lru);
      lruNext := lruNext[e := lruHead];
      lruPrev := lruPrev[e := NULL];
      if lruHead != NULL {
        lruPrev := lruPrev[lruHead := e];
      } else {
        lruTail := e;
      }
      lruHead := e;
      lru := [e] + lru;
    }

    method LruTouch(e: nat, ghost i: nat)
      requires Lists() && i < |lru| && lru[i] == e
      modifies `lruNext, `lruPrev, `lruHead, `lruTail, `lru
      ensures Lists() && lru == [e] + DropAt(old(lru), i)
    {
      hide IsTable, IsList, Distinct;
      ListFacts(lruNext, lruPrev, lru);
      if e != lruHead {
        DropAtDistinct(lru, i);
        LruRemove(e, i);
        LruAdd(e);
      } else {
        HeadIsFirst(lru, i);
      }
    }

    /** Walks the chain of `k`; NULL when no entry there has that key. */
    method Lookup(k: Key) returns (e: int)
      requires Inner()
      ensures e == NULL <==> k !in st.pages
      ensures e != NULL ==> 0 <= e < CAPACITY && data[e].Some? && keys[e] == k && e in lru
    {
      hide LruOk, IsTable, Hash, Distinct, Members, Mirror;
      var h := Hash(k);
      ghost var s := chains[h];
      ChainFacts(st, keys, data, dirty, locked, lru, chains, k);
      TableChain(hashNext, table, chains, h);
      ghost var i := 0;
      e := table[h];
      while e != NULL
        invariant 0 <= i <= |s| && e == (if i < |s| then s[i] else NULL)
        invariant forall j | 0 <= j < i :: s[j] < CAPACITY && keys[s[j]] != k
        decreases |s| - i
      {
        assert s[i] in s;
        if keys[e] == k {
          return;
        }
        e := hashNext[e];
        i := i + 1;
      }
      if k in st.pages {
        var d := OrderMember(st, keys, data, dirty, locked, lru, k);
      }
    }

    /** page_cache_find: a hit moves the entry to the head of the LRU list. */
    method FindEntry(k: Key) returns (e: int)
      requires Inner()
      modifies `lruNext, `lruPrev, `lruHead, `lruTail, `lru, `st, `hits, `misses
      ensures Inner() && st == Find(old(st), k)
      ensures forall d :: d in lru <==> d in old(lru)
      ensures e == NULL <==> k !in st.pages
      ensures e != NULL ==> 0 <= e < CAPACITY && data[e].Some? && keys[e] == k && lru != [] && lru[0] == e
    {
      hide LruOk, TableOk, Hash, Members, Mirror, Find, Distinct, DirtyKeys;
      e := Lookup(k);
      LruDistinct(lruNext, lruPrev, lruHead, lruTail, lru);
      OrderDistinct(st, keys, data, dirty, locked, lru, chains);
      FindOrder(st, k);
      if e == NULL {
        misses := misses + 1;
        return;
      }
      ghost var i: nat :| i < |lru| && lru[i] == e;
      TouchMirror(st, keys, data, dirty, locked, lru, i);
      TouchMembers(keys, data, lru, [e] + DropAt(lru, i), chains);
      LruTouch(e, i);
      hits := hits + 1;
      st := Find(st, k);
    }

    /** Unlinks an entry from its hash chain. */
    method HashRemove(e: nat) returns (ghost j: nat)
      requires Lists() && e < |keys| && e in chains[Hash(keys[e])]
      modifies `hashNext, `table, `chains
      ensures Lists()
      ensures var h := Hash(keys[e]);
              j < |old(chains)[h]| && old(chains)[h][j] == e && chains == old(chains)[h := DropAt(old(chains)[h], j)]
    {
      hide IsList, IsTable, Hash, Distinct;
      var h := Hash(keys[e]);
      ghost var s := chains[h];
      TableChain(hashNext, table, chains, h);
      var curr, prev := table[h], NULL;
      j := 0;
      while curr != e
        invariant j < |s| && e in s[j..] && curr == s[j] && prev == if j == 0 then NULL else s[j - 1]
        decreases |s| - j
      {
        assert s[j..] == [s[j]] + s[j + 1..];
        prev, curr := curr, hashNext[curr];
        j := j + 1;
      }
      TableRemove(hashNext, table, chains, h, j);
      if prev != NULL {
        hashNext := hashNext[prev := hashNext[curr]];
      } else {
        table := table[h := hashNext[curr]];
      }
      chains := chains[h := DropAt(s, j)];
      assert table == old(table)[h := BypassHead(old(hashNext), old(table)[h], s, j)];
    }

    /** Takes an entry out of the chain and the LRU list and frees its data. */
    method Detach(e: nat, ghost i: nat)
      requires Core() && i < |lru| && lru[i] == e
      modifies `hashNext, `table, `chains, `lruNext, `lruPrev, `lruHead, `lruTail, `lru, `data, `numPages, `st
      ensures Core() && e < CAPACITY && keys[e] in old(st).pages && st == Drop(old(st), keys[e])
      ensures data == old(data)[e := None] && lru == DropAt(old(lru), i)
    {
      hide LruOk, IsTable, Hash, Distinct, Members, Mirror, Drop;
      ghost var k := EntryKey(st, keys, data, dirty, locked, lru, chains, i);
      LruDistinct(lruNext, lruPrev, lruHead, lruTail, lru);
      OrderDistinct(st, keys, data, dirty, locked, lru, chains);
      TableChain(hashNext, table, chains, Hash(k));
      DetachMirror(st, keys, data, dirty, locked, lru, i);
      DropOrder(st, k);
      ghost var j := HashRemove(e);
      DetachMembers(keys, data, lru, old(chains), i, Hash(k), j);
      LruRemove(e, i);
      data := data[e := None];
      numPages := numPages - 1;
      st := Drop(st, k);
    }

    /** Walks from the LRU tail to the first entry that is neither locked nor dirty. */
    method FindVictim() returns (e: int, ghost i: nat)
      requires Core()
      ensures e == NULL <==> Victim(st.pages, st.order) == None
      ensures e != NULL ==>
                i < |lru| && lru[i] == e && i < |st.order| && Victim(st.pages, st.order) == Some(st.order[i])
    {
      hide IsList, IsTable, Hash, Distinct, Members, Mirror, DropAt;
      ListFacts(lruNext, lruPrev, lru);
      MirrorOrder(st, keys, data, dirty, locked, lru);
      e := lruTail;
      ghost var n := |lru|;
      i := 0;
      assert st.order[..n] == st.order;
      while e != NULL
        invariant 0 <= n <= |lru| && e == if n == 0 then NULL else lru[n - 1]
        invariant Victim(st.pages, st.order) == Victim(st.pages, st.order[..n])
        decreases n
      {
        ghost var k := EntryKey(st, keys, data, dirty, locked, lru, chains, n - 1);
        assert st.order[..n][..n - 1] == st.order[..n - 1];
        if !locked[e] && !dirty[e] {
          i := n - 1;
          return;
        }
        e := lruPrev[e];
        n := n - 1;
      }
    }

    /** page_cache_evict_lru. */
    method EvictLru() returns (e: int)
      requires Inner()
      modifies `hashNext, `table, `chains, `lruNext, `lruPrev, `lruHead, `lruTail, `lru, `data, `numPages, `st
      ensures Inner()
      ensures match Victim(old(st).pages, old(st).order)
              case None => e == NULL && st == old(st) && data == old(data)
              case Some(k) => 0 <= e < CAPACITY && data == old(data)[e := None] && st == Drop(old(st), k)
    {
      hide LruOk, TableOk, Hash, Distinct, Members, Mirror, DropAt, DirtyKeys, Drop, Victim;
      ghost var i;
      e, i := FindVictim();
      if e != NULL {
        ghost var k := EntryKey(st, keys, data, dirty, locked, lru, chains, i);
        LruDistinct(lruNext, lruPrev, lruHead, lruTail, lru);
        OrderDistinct(st, keys, data, dirty, locked, lru, chains);
        DropOrder(st, k);
        VictimClean(st, k);
        Detach(e, i);
      }
    }

    /** Enters page `k` at entry `e`: hash chain, LRU head, page counter. The data is whatever kmalloc returned. */
    method Attach(e: nat, k: Key, garbage: seq<byte>)
      requires Inner() && e < CAPACITY && data[e].None? && k !in st.pages
      modifies `keys, `data, `dirty, `locked, `uptodate, `hashNext, `table, `chains, `lruNext, `lruPrev, `lruHead,
               `lruTail, `lru, `numPages, `st
      ensures Inner() && lru == [e] + old(lru) && keys == old(keys)[e := k] && data == old(data)[e := Some(garbage)]
      ensures st == State(old(st).pages[k := Page(garbage, false, false)], [k] + old(st).order)
      ensures uptodate == old(uptodate)[e := false]
    {
      hide LruOk, IsTable, Hash, Distinct, Members, Mirror, DirtyKeys;
      AttachMirror(st, keys, data, dirty, locked, lru, e, k, garbage);
      AttachMembers(keys, data, lru, chains, e, k, garbage);
      TablePush(hashNext, table, chains, Hash(k), e);
      CleanPage(st, k, garbage);
      FieldSizes(st, keys, data, dirty, locked, lru);
      data := data[e := Some(garbage)];
      keys := keys[e := k];
      dirty, locked, uptodate := dirty[e := false], locked[e := false], uptodate[e := false];
      var h := Hash(k);
      hashNext := hashNext[e := table[h]];
      table := table[h := e];
      chains := chains[h := [e] + chains[h]];
      LruAdd(e);
      numPages := numPages + 1;
      st := State(st.pages[k := Page(garbage, false, false)], [k] + st.order);
    }

    /** Copies the page in and marks it dirty and up to date. */
    method Mark(e: nat, bytes: seq<byte>)
      requires Inner() && e < CAPACITY && e in lru
      modifies `data, `dirty, `uptodate, `numDirty, `st
      ensures Inner() && keys[e] in old(st).pages
      ensures st == old(st).(pages := old(st).pages[keys[e] := old(st).pages[keys[e]].(bytes := bytes, dirty := true)])
      ensures data == old(data)[e := Some(bytes)] && uptodate == old(uptodate)[e := true]
    {
      hide LruOk, TableOk, Hash, Distinct, Members, Mirror, DirtyKeys;
      ghost var i: nat :| i < |lru| && lru[i] == e;
      ghost var k := EntryKey(st, keys, data, dirty, locked, lru, chains, i);
      MarkMirror(st, keys, data, dirty, locked, lru, chains, e, bytes);
      MarkDirty(st, k, bytes);
      data := data[e := Some(bytes)];
      if !dirty[e] {
        dirty := dirty[e := true];
        numDirty := numDirty + 1;
      }
      assert dirty == old(dirty)[e := true];
      uptodate := uptodate[e := true];
      st := st.(pages := st.pages[k := st.pages[k].(bytes := bytes, dirty := true)]);
    }

    /** An entry to put a new page in: an unused one, or the victim of an eviction; NULL if there is neither. */
    method GetEntry() returns (e: int)
      requires Inner() && Valid()
      modifies `hashNext, `table, `chains, `lruNext, `lruPrev, `lruHead, `lruTail, `lru, `data, `numPages, `st
      ensures Inner() && Valid()
      ensures match MakeRoom(old(st))
              case None => e == NULL && st == old(st)
              case Some(t) => 0 <= e < CAPACITY && data[e].None? && st == t
    {
      hide IsList, IsTable, Hash, Distinct, Members, Mirror, DirtyKeys, Drop, Victim;
      FieldSizes(st, keys, data, dirty, locked, lru);
      if numPages >= CAPACITY {
        e := EvictLru();
      } else {
        e := NULL;
        for i := 0 to CAPACITY
          invariant e == NULL && forall d: nat | d < i :: data[d].Some?
        {
          if data[i].None? {
            return i;
          }
        }
        NotAllUsed(st, keys, data, dirty, locked, lru, chains);
      }
    }

    /** page_cache_write of a whole page; `allocOk` is what kmalloc answers if it is asked. */
    method WritePage(k: Key, bytes: seq<byte>, allocOk: bool) returns (ok: bool)
      requires Valid()
      modifies this
      ensures Valid() && (st, ok) == Write(old(st), k, bytes, allocOk)
    {
      hide LruOk, TableOk, Hash, Distinct, Members, Mirror, DirtyKeys, MakeRoom, Find;
      FindPages(st, k);
      NotFound(st, k);
      var e := FindEntry(k);
      if e == NULL {
        ok := WriteNew(k, bytes, allocOk);
      } else {
        FieldSizes(st, keys, data, dirty, locked, lru);
        Mark(e, bytes);
        ok := true;
      }
    }

    /** The part of page_cache_write for a page that is not cached. */
    method WriteNew(k: Key, bytes: seq<byte>, allocOk: bool) returns (ok: bool)
      requires Valid() && k !in st.pages
      modifies this
      ensures Valid() && (st, ok) == Write(old(st), k, bytes, allocOk)
    {
      hide LruOk, TableOk, Hash, Distinct, Members, Mirror, DirtyKeys, MakeRoom, Find;
      var e := GetEntry();
      if e == NULL || !allocOk {
        return false;
      }
      FieldSizes(st, keys, data, dirty, locked, lru);
      RoomKeys(old(st), k);
      ghost var t := st;
      Attach(e, k, Zeros(BLOCK));
      FieldSizes(st, keys, data, dirty, locked, lru);
      Mark(e, bytes);
      PutTwice(t, k, Zeros(BLOCK), bytes);
      ok := true;
    }

    /** page_cache_read. */
    method ReadPage(k: Key) returns (r: Data)
      requires Valid()
      modifies `lruNext, `lruPrev, `lruHead, `lruTail, `lru, `st, `hits, `misses
      ensures Valid() && (st, r) == Read(old(st), k)
    {
      hide LruOk, TableOk, Hash, Distinct, Members, Mirror, DirtyKeys, Find;
      FindPages(st, k);
      var e := FindEntry(k);
      FieldSizes(st, keys, data, dirty, locked, lru);
      if e != NULL && uptodate[e] {
        ghost var k' := EntryKey(st, keys, data, dirty, locked, lru, chains, 0);
        return data[e];
      }
      r := None;
    }

    /** Clears the flags of a flushed entry. */
    method MarkClean(e: nat)
      requires Inner() && lru != [] && lru[0] == e && e < |dirty| && dirty[e]
      modifies `st, `dirty, `locked, `numDirty
      ensures Inner() && e < |keys| && keys[e] in old(st).pages && dirty == old(dirty)[e := false]
      ensures var page := old(st).pages[keys[e]];
              st == old(st).(pages := old(st).pages[keys[e] := page.(dirty := false, locked := false)])
    {
      hide LruOk, TableOk, Hash, Distinct, Members, Mirror, DirtyKeys;
      ghost var k := EntryKey(st, keys, data, dirty, locked, lru, chains, 0);
      UniqueKey(keys, data, lru, chains, e);
      CleanMirror(st, keys, data, dirty, locked, lru, e);
      CleanDirty(st, k);
      dirty, locked := dirty[e := false], locked[e := false];
      numDirty := numDirty - 1;
      st := st.(pages := st.pages[k := st.pages[k].(dirty := false, locked := false)]);
    }

    /** page_cache_flush: the write-back itself is not implemented, the page just becomes clean. */
    method FlushPage(k: Key)
      requires Valid()
      modifies `lruNext, `lruPrev, `lruHead, `lruTail, `lru, `st, `hits, `misses, `dirty, `locked, `numDirty
      ensures Valid() && st == Flush(old(st), k)
    {
      hide LruOk, TableOk, Hash, Distinct, Members, Mirror, DirtyKeys, Find;
      FieldSizes(st, keys, data, dirty, locked, lru);
      FindPages(st, k);
      var e := FindEntry(k);
      if e != NULL {
        ghost var k' := EntryKey(st, keys, data, dirty, locked, lru, chains, 0);
        if dirty[e] {
          MarkClean(e);
        }
      }
    }

    /** Takes the entry at the LRU head out of the cache. */
    method DropHead(e: nat)
      requires Inner() && lru != [] && lru[0] == e
      modifies this
      ensures Inner() && keys == old(keys) && uptodate == old(uptodate)
      ensures e < CAPACITY == |keys| == |data| && data == old(data)[e := None] && st == Drop(old(st), keys[e])
    {
      hide LruOk, TableOk, Hash, Distinct, Members, Mirror, DirtyKeys, Drop, DropAt, KeysOf;
      ghost var k := EntryKey(st, keys, data, dirty, locked, lru, chains, 0);
      LruDistinct(lruNext, lruPrev, lruHead, lruTail, lru);
      OrderDistinct(st, keys, data, dirty, locked, lru, chains);
      DropOrder(st, k);
      InDirty(st, k);
      Detach(e, 0);
      if dirty[e] {
        numDirty := numDirty - 1;
      }
    }

    /** page_cache_invalidate. */
    method InvalidatePage(k: Key)
      requires Valid()
      modifies this
      ensures Valid() && st == Invalidate(old(st), k) && keys == old(keys)
      ensures |data| == |old(data)|
      ensures forall d: nat | d < |data| && d < |keys| && keys[d] != k :: data[d] == old(data)[d]
    {
      hide LruOk, TableOk, Hash, Distinct, Members, Mirror, DirtyKeys, Drop, Find;
      FieldSizes(st, keys, data, dirty, locked, lru);
      FindPages(st, k);
      NotFound(st, k);
      LruDistinct(lruNext, lruPrev, lruHead, lruTail, lru);
      OrderDistinct(st, keys, data, dirty, locked, lru, chains);
      FindDrop(st, k);
      var e := FindEntry(k);
      if e != NULL {
        DropHead(e);
      }
    }

    /** page_cache_flush_all: flushes every dirty page of the file, in pool order; none is left. */
    method FlushFile(file: nat) returns (flushed: nat, ghost ks: seq<Key>)
      requires Valid()
      modifies `lruNext, `lruPrev, `lruHead, `lruTail, `lru, `st, `hits, `misses, `dirty, `locked, `numDirty
      ensures Valid() && st == FlushSeq(old(st), ks) && flushed == |ks|
      ensures forall k | k in ks :: k.file == file
      ensures forall k | k in st.pages && k.file == file :: !st.pages[k].dirty
    {
      hide LruOk, TableOk, Hash, Distinct, Members, Mirror, DirtyKeys, Flush;
      FieldSizes(st, keys, data, dirty, locked, lru);
      flushed, ks := 0, [];
      for i := 0 to CAPACITY
        invariant Valid() && |dirty| == CAPACITY && st == FlushSeq(old(st), ks) && flushed == |ks|
        invariant forall k | k in ks :: k.file == file
        invariant forall e: nat | e < i && data[e].Some? && keys[e].file == file ::
                    keys[e] in st.pages && !st.pages[keys[e]].dirty
      {
        ActivePages(st, keys, data, dirty, locked, lru, chains);
        if data[i].Some? && keys[i].file == file && dirty[i] {
          FlushEffect(st, keys[i]);
          FlushSeqMore(old(st), ks, keys[i]);
          FlushPage(keys[i]);
          FieldSizes(st, keys, data, dirty, locked, lru);
          flushed, ks := flushed + 1, ks + [keys[i]];
        }
      }
      CachedKeys(st, keys, data, dirty, locked, lru);
    }

    /** cache_drop_file: drops every page of the file; none is left. */
    method DropFile(file: nat) returns (dropped: nat, ghost ks: seq<Key>)
      requires Valid()
      modifies this
      ensures Valid() && st == InvalidateSeq(old(st), ks) && dropped == |ks|
      ensures forall k | k in ks :: k.file == file
      ensures forall k | k in st.pages :: k.file != file
    {
      hide LruOk, TableOk, Hash, Distinct, Members, Mirror, DirtyKeys, Invalidate;
      FieldSizes(st, keys, data, dirty, locked, lru);
      dropped, ks := 0, [];
      for i := 0 to CAPACITY
        invariant Valid() && |data| == |keys| == CAPACITY && st == InvalidateSeq(old(st), ks) && dropped == |ks|
        invariant forall k | k in ks :: k.file == file
        invariant forall e: nat | e < i && data[e].Some? :: keys[e].file != file
      {
        if data[i].Some? && keys[i].file == file {
          InvalidateSeqMore(old(st), ks, keys[i]);
          InvalidateEffect(st, keys[i]);
          ks := ks + [keys[i]];
          InvalidatePage(keys[i]);
          ActivePages(st, keys, data, dirty, locked, lru, chains);
          dropped := dropped + 1;
        }
      }
      CachedKeys(st, keys, data, dirty, locked, lru);
    }

    /** page_cache_init: nothing is cached. */
    constructor ()
      ensures Valid() && st == EMPTY
    {
      keys, data := Fill(CAPACITY, Key(0, 0)), Fill(CAPACITY, None);
      dirty, locked, uptodate := Fill(CAPACITY, false), Fill(CAPACITY, false), Fill(CAPACITY, false);
      hashNext, lruPrev, lruNext := Fill(CAPACITY, NULL), Fill(CAPACITY, NULL), Fill(CAPACITY, NULL);
      table, lruHead, lruTail := Fill(HASH, NULL), NULL, NULL;
      numPages, numDirty, hits, misses := 0, 0, 0, 0;
      lru, chains, st := [], Fill(HASH, []), EMPTY;
      new;
      assert DirtyKeys(st) == {};
      assert st.order == KeysOf(keys, lru);
    }
  }

  function FlushSeq(s: State, ks: seq<Key>): State {
    if ks == [] then s else Flush(FlushSeq(s, ks[..|ks| - 1]), ks[|ks| - 1])
  }

  function InvalidateSeq(s: State, ks: seq<Key>): State {
    if ks == [] then s else Invalidate(InvalidateSeq(s, ks[..|ks| - 1]), ks[|ks| - 1])
  }

  lemma FlushSeqMore(s: State, ks: seq<Key>, k: Key)
    ensures FlushSeq(s, ks + [k]) == Flush(FlushSeq(s, ks), k)
  {
    assert (ks + [k])[..|ks|] == ks;
  }

  lemma InvalidateSeqMore(s: State, ks: seq<Key>, k: Key)
    ensures InvalidateSeq(s, ks + [k]) == Invalidate(InvalidateSeq(s, ks), k)
  {
    assert (ks + [k])[..|ks|] == ks;
  }

  lemma FlushEffect(s: State, k: Key)
    ensures Flush(s, k).pages.Keys == s.pages.Keys
    ensures k in s.pages ==> !Flush(s, k).pages[k].dirty
    ensures forall j | j in s.pages && j != k :: Flush(s, k).pages[j] == s.pages[j]
  {
  }

  lemma InvalidateEffect(s: State, k: Key)
    ensures k !in Invalidate(s, k).pages
  {
  }

  lemma ActivePages(st: State, keys: seq<Key>, data: seq<Data>, dirty: seq<bool>, locked: seq<bool>, lru: seq<nat>,
                    chains: seq<seq<nat>>)
    requires Members(keys, data, lru, chains) && Mirror(st, keys, data, dirty, locked, lru)
    ensures |keys| == |data| == |dirty| == CAPACITY
    ensures forall e: nat | e < CAPACITY && data[e].Some? :: keys[e] in st.pages && st.pages[keys[e]].dirty == dirty[e]
  {
    hide Hash, KeysOf;
  }

  lemma CachedKeys(st: State, keys: seq<Key>, data: seq<Data>, dirty: seq<bool>, locked: seq<bool>, lru: seq<nat>)
    requires Mirror(st, keys, data, dirty, locked, lru)
    ensures |keys| == |data| == CAPACITY
    ensures forall k | k in st.pages :: exists e: nat :: e < CAPACITY && data[e].Some? && keys[e] == k
  {
    forall k | k in st.pages
      ensures exists e: nat :: e < CAPACITY && data[e].Some? && keys[e] == k
    {
      var e := OrderMember(st, keys, data, dirty, locked, lru, k);
    }
  }

  lemma FindDrop(s: State, k: Key)
    requires Distinct(s.order)
    ensures Drop(Find(s, k), k) == Drop(s, k)
  {
    WithoutMembers(s.order, k);
    WithoutAbsent(Without(s.order, k), k);
    var r := [k] + Without(s.order, k);
    assert r[1..] == Without(s.order, k);
  }

  lemma InDirty(s: State, k: Key)
    requires k in s.pages
    ensures k in DirtyKeys(s) <==> s.pages[k].dirty
  {
  }

  lemma CleanDirty(s: State, k: Key)
    requires k in s.pages && s.pages[k].dirty
    ensures DirtyKeys(s.(pages := s.pages[k := s.pages[k].(dirty := false, locked := false)])) == DirtyKeys(s) - {k}
    ensures k in DirtyKeys(s)
  {
  }

  lemma UniqueKey(keys: seq<Key>, data: seq<Data>, lru: seq<nat>, chains: seq<seq<nat>>, e: nat)
    requires Members(keys, data, lru, chains) && e in lru
    ensures forall d | d in lru && KeyAt(keys, d) == KeyAt(keys, e) :: d == e
  {
    hide Hash;
  }

  lemma CleanMirror(st: State, keys: seq<Key>, data: seq<Data>, dirty: seq<bool>, locked: seq<bool>, lru: seq<nat>,
                    e: nat)
    requires Mirror(st, keys, data, dirty, locked, lru) && e in lru
    requires forall d | d in lru && KeyAt(keys, d) == KeyAt(keys, e) :: d == e
    ensures e < CAPACITY && keys[e] in st.pages
    ensures Mirror(st.(pages := st.pages[keys[e] := st.pages[keys[e]].(dirty := false, locked := false)]),
                   keys, data, dirty[e := false], locked[e := false], lru)
  {
    hide KeysOf;
  }

  lemma PutTwice(t: State, k: Key, garbage: seq<byte>, bytes: seq<byte>)
    ensures var p := t.pages[k := Page(garbage, false, false)];
            State(p[k := p[k].(bytes := bytes, dirty := true)], [k] + t.order) == Insert(t, k, bytes)
  {
  }

  lemma NotFound(s: State, k: Key)
    ensures k !in s.pages ==> Find(s, k) == s
  {
  }

  lemma RoomKeys(s: State, k: Key)
    requires k !in s.pages
    ensures MakeRoom(s).Some? ==> k !in MakeRoom(s).value.pages
  {
  }

  lemma FieldSizes(st: State, keys: seq<Key>, data: seq<Data>, dirty: seq<bool>, locked: seq<bool>, lru: seq<nat>)
    requires Mirror(st, keys, data, dirty, locked, lru)
    ensures |keys| == |data| == |dirty| == |locked| == CAPACITY
  {
  }

  lemma CleanPage(s: State, k: Key, d: seq<byte>)
    requires k !in s.pages
    ensures DirtyKeys(State(s.pages[k := Page(d, false, false)], [k] + s.order)) == DirtyKeys(s)
  {
  }

  lemma MarkDirty(s: State, k: Key, bytes: seq<byte>)
    requires k in s.pages
    ensures DirtyKeys(s.(pages := s.pages[k := s.pages[k].(bytes := bytes, dirty := true)])) == DirtyKeys(s) + {k}
    ensures k in DirtyKeys(s) <==> s.pages[k].dirty
  {
  }

  lemma MarkMirror(st: State, keys: seq<Key>, data: seq<Data>, dirty: seq<bool>, locked: seq<bool>, lru: seq<nat>,
                   chains: seq<seq<nat>>, e: nat, bytes: seq<byte>)
    requires Members(keys, data, lru, chains) && Mirror(st, keys, data, dirty, locked, lru) && e in lru
    ensures e < CAPACITY && keys[e] in st.pages
    ensures Members(keys, data[e := Some(bytes)], lru, chains)
    ensures Mirror(st.(pages := st.pages[keys[e] := st.pages[keys[e]].(bytes := bytes, dirty := true)]),
                   keys, data[e := Some(bytes)], dirty[e := true], locked, lru)
  {
    hide Hash, KeysOf;
  }

  lemma NotAllUsed(st: State, keys: seq<Key>, data: seq<Data>, dirty: seq<bool>, locked: seq<bool>, lru: seq<nat>,
                   chains: seq<seq<nat>>)
    requires Members(keys, data, lru, chains) && Mirror(st, keys, data, dirty, locked, lru)
    requires forall d: nat | d < CAPACITY :: data[d].Some?
    ensures |st.order| >= CAPACITY
  {
    hide Hash;
    forall d: nat | d < CAPACITY ensures d in lru { assert data[d].Some?; }
    AllListed(lru, CAPACITY);
  }

  lemma {:induction false} AllListed(s: seq<nat>, n: nat)
    requires forall d: nat | d < n :: d in s
    ensures |s| >= n
  {
    if n > 0 {
      var last: nat := n - 1;
      assert last in s;
      var i :| 0 <= i < |s| && s[i] == last;
      var r := DropAt(s, i);
      forall d: nat | d < n - 1
        ensures d in r
      {
        assert d in s;
        var j :| 0 <= j < |s| && s[j] == d;
        assert r[if j < i then j else j - 1] == d;
      }
      AllListed(r, n - 1);
    }
  }

  lemma VictimClean(s: State, k: Key)
    requires Victim(s.pages, s.order) == Some(k)
    ensures k !in DirtyKeys(s)
  {
    var i := VictimIsLru(s.pages, s.order);
  }

  lemma MirrorOrder(st: State, keys: seq<Key>, data: seq<Data>, dirty: seq<bool>, locked: seq<bool>, lru: seq<nat>)
    requires Mirror(st, keys, data, dirty, locked, lru)
    ensures |st.order| == |lru|
  {
  }

  lemma EntryKey(st: State, keys: seq<Key>, data: seq<Data>, dirty: seq<bool>, locked: seq<bool>, lru: seq<nat>,
                 chains: seq<seq<nat>>, i: nat)
    returns (k: Key)
    requires Members(keys, data, lru, chains) && Mirror(st, keys, data, dirty, locked, lru) && i < |lru|
    ensures lru[i] < |keys| == CAPACITY == |data| == |dirty| == |locked| && |chains| == HASH
    ensures k == keys[lru[i]] && k in st.pages && lru[i] in chains[Hash(k)]
    ensures data[lru[i]].Some? && st.pages[k] == Page(data[lru[i]].value, dirty[lru[i]], locked[lru[i]])
    ensures |st.order| == |lru| && st.order[i] == k
  {
    hide Hash;
    assert lru[i] in lru;
    k := keys[lru[i]];
  }

  lemma DropOrder(s: State, k: Key)
    requires Distinct(s.order) && k in s.pages && k in s.order
    ensures |Drop(s, k).order| == |s.order| - 1 && DirtyKeys(Drop(s, k)) == DirtyKeys(s) - {k}
    ensures Drop(s, k).pages == s.pages - {k}
  {
    WithoutMembers(s.order, k);
  }

  lemma ChainFacts(st: State, keys: seq<Key>, data: seq<Data>, dirty: seq<bool>, locked: seq<bool>, lru: seq<nat>,
                   chains: seq<seq<nat>>, k: Key)
    requires Members(keys, data, lru, chains) && Mirror(st, keys, data, dirty, locked, lru)
    ensures |chains| == HASH && |keys| == |data| == CAPACITY
    ensures forall e | e in chains[Hash(k)] :: e < CAPACITY && data[e].Some? && e in lru && keys[e] in st.pages
    ensures forall e | e in lru :: e < CAPACITY && (keys[e] == k ==> e in chains[Hash(k)])
  {
    hide Xor, KeysOf;
    var h := Hash(k);
    forall e | e in chains[h]
      ensures e < CAPACITY && data[e].Some? && e in lru
    {
    }
  }

  lemma FindOrder(s: State, k: Key)
    requires Distinct(s.order) && (k in s.pages ==> k in s.order)
    ensures Find(s, k).pages == s.pages && DirtyKeys(Find(s, k)) == DirtyKeys(s) && |Find(s, k).order| == |s.order|
    ensures k !in s.pages ==> Find(s, k) == s
  {
    WithoutMembers(s.order, k);
  }

  lemma LruDistinct(next: seq<int>, prev: seq<int>, head: int, tail: int, lru: seq<nat>)
    requires LruOk(next, prev, head, tail, lru)
    ensures Distinct(lru)
  {
  }

  // ---- runs --------------------------------------------------------------------------------------

  function FlushOps(ks: seq<Key>): (ops: seq<Op>)
    ensures |ops| == |ks| && forall i | 0 <= i < |ks| :: ops[i] == OpFlush(ks[i])
  {
    seq(|ks|, i requires 0 <= i < |ks| => OpFlush(ks[i]))
  }

  function InvalidateOps(ks: seq<Key>): (ops: seq<Op>)
    ensures |ops| == |ks| && forall i | 0 <= i < |ks| :: ops[i] == OpInvalidate(ks[i])
  {
    seq(|ks|, i requires 0 <= i < |ks| => OpInvalidate(ks[i]))
  }

  /** A flush of a file is the flushes of its pages. */
  lemma {:induction false} FlushSeqRuns(before: seq<Op>, ks: seq<Key>)
    ensures FlushSeq(Run(before), ks) == Run(before + FlushOps(ks))
  {
    hide Run;
    if ks == [] {
      assert before + FlushOps(ks) == before;
    } else {
      var front := ks[..|ks| - 1];
      FlushSeqRuns(before, front);
      assert before + FlushOps(ks) == before + FlushOps(front) + [OpFlush(ks[|ks| - 1])];
      RunMore(before + FlushOps(front), OpFlush(ks[|ks| - 1]));
    }
  }

  /** A drop of a file is the invalidations of its pages. */
  lemma {:induction false} InvalidateSeqRuns(before: seq<Op>, ks: seq<Key>)
    ensures InvalidateSeq(Run(before), ks) == Run(before + InvalidateOps(ks))
  {
    hide Run;
    if ks == [] {
      assert before + InvalidateOps(ks) == before;
    } else {
      var front := ks[..|ks| - 1];
      InvalidateSeqRuns(before, front);
      assert before + InvalidateOps(ks) == before + InvalidateOps(front) + [OpInvalidate(ks[|ks| - 1])];
      RunMore(before + InvalidateOps(front), OpInvalidate(ks[|ks| - 1]));
    }
  }

  /** The implementation, driven by any sequence of calls, stays in step with the specification. */
  method Execute(calls: seq<Call>) returns (c: Cache, ghost trace: seq<seq<Op>>)
    ensures fresh(c) && c.Valid() && IsTrace(calls, trace) && c.st == Run(Flatten(trace))
  {
    hide Step, Run, Expands;
    c := new Cache();
    trace := [];
    assert Run([]) == EMPTY by { RunNothing(); }
    for i := 0 to |calls|
      invariant fresh(c) && c.Valid() && IsTrace(calls[..i], trace) && c.st == Run(Flatten(trace))
    {
      ghost var ops := PerformCall(c, calls[i], Flatten(trace));
      TraceMore(calls, trace, i, ops);
      trace := trace + [ops];
    }
    assert calls[..|calls|] == calls;
  }

  lemma RunNothing()
    ensures Run([]) == EMPTY
  {
  }

  lemma TraceMore(calls: seq<Call>, trace: seq<seq<Op>>, i: nat, ops: seq<Op>)
    requires i < |calls| && IsTrace(calls[..i], trace) && Expands(Flatten(trace), calls[i], ops)
    ensures IsTrace(calls[..i + 1], trace + [ops]) && Flatten(trace + [ops]) == Flatten(trace) + ops
  {
    hide Expands;
    var t := trace + [ops];
    assert t[..i] == trace;
    forall j: nat | j < i + 1
      ensures Expands(Flatten(t[..j]), calls[..i + 1][j], t[j])
    {
      if j < i {
        assert t[..j] == trace[..j];
        assert Expands(Flatten(trace[..j]), calls[..i][j], trace[j]);
      }
    }
  }

  method PerformCall(c: Cache, call: Call, ghost before: seq<Op>) returns (ghost ops: seq<Op>)
    requires c.Valid() && c.st == Run(before)
    modifies c
    ensures c.Valid() && Expands(before, call, ops) && c.st == Run(before + ops)
  {
    hide Step, Run, FlushSeq, InvalidateSeq, FlushOps, InvalidateOps;
    match call
    case PageCall(op) =>
      RunMore(before, op);
      ops := [op];
      Perform(c, op);
    case FlushCall(file) =>
      var n, ks := c.FlushFile(file);
      FlushSeqRuns(before, ks);
      ops := FlushOps(ks);
    case DropCall(file) =>
      var n, ks := c.DropFile(file);
      InvalidateSeqRuns(before, ks);
      ops := InvalidateOps(ks);
  }

  method Perform(c: Cache, op: Op)
    requires c.Valid()
    modifies c
    ensures c.Valid() && c.st == Step(old(c.st), op)
  {
    hide Write, Read, Flush, Invalidate;
    match op
    case OpWrite(k, bytes, allocOk) => var ok := c.WritePage(k, bytes, allocOk);
    case OpRead(k) => var r := c.ReadPage(k);
    case OpFlush(k) => c.FlushPage(k);
    case OpInvalidate(k) => c.InvalidatePage(k);
  }
}
