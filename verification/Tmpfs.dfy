/**
 File data of the RAM filesystem in kernel/fs/tmpfs.c: each file is a singly
 linked list of blocks whose 4 KiB of data is allocated on first write.
 `kmalloc` may fail at any call. List nodes are numbered in the order kmalloc
 returned them, and a node pointer is that number.
 */
module Tmpfs {
  import opened Arith
  import opened Bytes
  import opened Links
  import opened Options
  import opened Sparse

  const MAX_FILE_SIZE: nat := 0x10_0000

  // ---- block lists ---------------------------------------------------------------------

  /** File `f` and place in its list. */
  datatype Place = Place(f: nat, i: nat)

  /** `s` spells the list of file `f`, and its nodes know their place in it. */
  ghost predicate Chain(next: seq<int>, owner: seq<Place>, head: int, s: seq<nat>, f: nat) {
    && |owner| == |next|
    && head == First(s)
    && (forall i | 0 <= i < |s| :: s[i] < |next| && owner[s[i]] == Place(f, i))
    && (forall i {:trigger next[s[i]]} | 0 <= i < |s| :: next[s[i]] == if i + 1 < |s| then s[i + 1] else NULL)
  }

  ghost predicate Chains(next: seq<int>, owner: seq<Place>, heads: seq<int>, chains: seq<seq<nat>>) {
    && |heads| == |chains|
    && (forall f | 0 <= f < |chains| :: Chain(next, owner, heads[f], chains[f], f))
  }

  /** Appending the new node `|next|` to the list of `f`. */
  function LinkLast(next: seq<int>, s: seq<nat>): seq<int>
    requires forall i | 0 <= i < |s| :: s[i] < |next|
  {
    (if s == [] then next else next[s[|s| - 1] := |next|]) + [NULL]
  }

  lemma AppendNode(next: seq<int>, owner: seq<Place>, heads: seq<int>, chains: seq<seq<nat>>, f: nat)
    requires Chains(next, owner, heads, chains) && f < |chains|
    ensures (forall i | 0 <= i < |chains[f]| :: chains[f][i] < |next|)
    ensures Chains(LinkLast(next, chains[f]), owner + [Place(f, |chains[f]|)],
                   if chains[f] == [] then heads[f := |next|] else heads, chains[f := chains[f] + [|next|]])
  {
    var s := chains[f];
    assert Chain(next, owner, heads[f], s, f);
    var next', owner' := LinkLast(next, s), owner + [Place(f, |s|)];
    forall g | 0 <= g < |chains| && g != f
      ensures Chain(next', owner', heads[g], chains[g], g)
    {
      assert Chain(next, owner, heads[g], chains[g], g);
      forall i | 0 <= i < |chains[g]|
        ensures next'[chains[g][i]] == next[chains[g][i]]
      {
        assert owner[chains[g][i]] == Place(g, i);
        assert s != [] ==> owner[s[|s| - 1]] == Place(f, |s| - 1);
      }
    }
    var s' := s + [|next|];
    forall i | 0 <= i < |s'|
      ensures next'[s'[i]] == if i + 1 < |s'| then s'[i + 1] else NULL
    {
      if i < |s| - 1 { assert owner[s[i]] == Place(f, i) && owner[s[|s| - 1]] == Place(f, |s| - 1); }
    }
  }

  /** Cutting the list of `f` after `n` nodes. */
  lemma CutChain(next: seq<int>, owner: seq<Place>, heads: seq<int>, chains: seq<seq<nat>>, f: nat, n: nat)
    requires Chains(next, owner, heads, chains) && f < |chains| && n < |chains[f]|
    ensures 0 < n ==> chains[f][n - 1] < |next|
    ensures Chains(if n == 0 then next else next[chains[f][n - 1] := NULL], owner,
                   if n == 0 then heads[f := NULL] else heads, chains[f := chains[f][..n]])
  {
    var s := chains[f];
    assert Chain(next, owner, heads[f], s, f);
    var next' := if n == 0 then next else next[s[n - 1] := NULL];
    assert 0 < n ==> owner[s[n - 1]] == Place(f, n - 1);
    forall g | 0 <= g < |chains| && g != f
      ensures Chain(next', owner, heads[g], chains[g], g)
    {
      assert Chain(next, owner, heads[g], chains[g], g);
      forall i | 0 <= i < |chains[g]| ensures next'[chains[g][i]] == next[chains[g][i]] {
        assert owner[chains[g][i]] == Place(g, i);
      }
    }
    forall i | 0 <= i < n
      ensures next'[s[i]] == if i + 1 < n then s[..n][i + 1] else NULL
    {
      assert owner[s[i]] == Place(f, i);
    }
  }

  /** From its node number `n` on a list is threaded to its end. */
  ghost predicate Threads(next: seq<int>, s: seq<nat>, n: nat) {
    && Distinct(s) && (forall i | 0 <= i < |s| :: s[i] < |next|)
    && forall i {:trigger next[s[i]]} | n <= i < |s| :: next[s[i]] == if i + 1 < |s| then s[i + 1] else NULL
  }

  lemma ChainsSize(next: seq<int>, owner: seq<Place>, heads: seq<int>, chains: seq<seq<nat>>)
    requires Chains(next, owner, heads, chains)
    ensures |heads| == |chains|
  {
  }

  /** The nodes behind the cut still follow one another. */
  lemma CutTail(next: seq<int>, owner: seq<Place>, heads: seq<int>, chains: seq<seq<nat>>, f: nat, n: nat)
    requires Chains(next, owner, heads, chains) && f < |chains| && n < |chains[f]|
    ensures 0 < n ==> chains[f][n - 1] < |next|
    ensures Threads(if n == 0 then next else next[chains[f][n - 1] := NULL], chains[f], n)
  {
    hide Chains;
    var s := chains[f];
    ChainNodes(next, owner, heads, chains, f);
    assert forall i | 0 <= i < |s| :: owner[s[i]] == Place(f, i);
  }

  /** The data of a list of nodes. */
  function ValsOf(data: seq<Data>, s: seq<nat>): (vals: seq<Data>)
    ensures |vals| == |s| && forall i | 0 <= i < |s| && s[i] < |data| :: vals[i] == data[s[i]]
  {
    seq(|s|, i requires 0 <= i < |s| => if s[i] < |data| then data[s[i]] else None)
  }

  /** How many nodes hold data. */
  function Filled(data: seq<Data>): nat {
    if data == [] then 0 else Filled(data[..|data| - 1]) + if data[|data| - 1].Some? then 1 else 0
  }

  lemma {:induction false} FilledUpdate(data: seq<Data>, n: nat, d: Data)
    requires n < |data|
    ensures Filled(data[n := d]) == Filled(data) - (if data[n].Some? then 1 else 0) + (if d.Some? then 1 else 0)
  {
    var after := data[n := d];
    if n == |data| - 1 {
      assert after[..|data| - 1] == data[..|data| - 1];
    } else {
      FilledUpdate(data[..|data| - 1], n, d);
      assert after[..|data| - 1] == data[..|data| - 1][n := d];
    }
  }

  ghost predicate ZeroFrom(vals: seq<Data>, size: nat) {
    forall pos: nat | size <= pos :: At(vals, pos) == 0
  }

  lemma ChainNodes(next: seq<int>, owner: seq<Place>, heads: seq<int>, chains: seq<seq<nat>>, f: nat)
    requires Chains(next, owner, heads, chains) && f < |chains|
    ensures heads[f] == First(chains[f]) && |owner| == |next|
    ensures forall i | 0 <= i < |chains[f]| :: chains[f][i] < |next| && owner[chains[f][i]] == Place(f, i)
    ensures forall i {:trigger next[chains[f][i]]} | 0 <= i < |chains[f]| ::
              next[chains[f][i]] == if i + 1 < |chains[f]| then chains[f][i + 1] else NULL
  {
    assert Chain(next, owner, heads[f], chains[f], f);
  }

  /** Data is 4 KiB, and sits only in nodes that are on their owner's list. */
  ghost predicate Stored(data: seq<Data>, owner: seq<Place>, chains: seq<seq<nat>>) {
    && |owner| == |data|
    && (forall n | 0 <= n < |data| && data[n].Some? ::
          |data[n].value| == BLOCK && OnList(chains, owner[n], n))
  }

  predicate OnList(chains: seq<seq<nat>>, p: Place, n: nat) {
    p.f < |chains| && p.i < |chains[p.f]| && chains[p.f][p.i] == n
  }

  /** Rewriting the data of one node changes that place of one file and nothing else. */
  lemma UpdateVals(next: seq<int>, owner: seq<Place>, heads: seq<int>, chains: seq<seq<nat>>, data: seq<Data>, f: nat,
                   i: nat, d: Data)
    requires Chains(next, owner, heads, chains) && f < |chains| && i < |chains[f]|
    requires Stored(data, owner, chains) && (d.Some? ==> |d.value| == BLOCK) && |data| == |next|
    ensures forall g, j | 0 <= g < |chains| && 0 <= j < |chains[g]| :: chains[g][j] < |data|
    ensures var data' := data[chains[f][i] := d];
            && Stored(data', owner, chains)
            && ValsOf(data', chains[f]) == ValsOf(data, chains[f])[i := d]
            && (forall g | 0 <= g < |chains| && g != f :: ValsOf(data', chains[g]) == ValsOf(data, chains[g]))
  {
    var data' := data[chains[f][i] := d];
    ChainNodes(next, owner, heads, chains, f);
    forall g | 0 <= g < |chains|
      ensures forall j | 0 <= j < |chains[g]| ::
                chains[g][j] < |data| && (chains[g][j] == chains[f][i] <==> g == f && j == i)
    {
      ChainNodes(next, owner, heads, chains, g);
    }
  }

  lemma WholeAt(vals: seq<Data>, i: nat)
    requires Whole(vals) && i < |vals|
    ensures vals[i].Some? ==> |vals[i].value| == BLOCK
  {
  }

  lemma AppendStored(next: seq<int>, owner: seq<Place>, heads: seq<int>, chains: seq<seq<nat>>, data: seq<Data>, f: nat)
    requires Chains(next, owner, heads, chains) && f < |chains| && Stored(data, owner, chains) && |data| == |next|
    ensures var chains' := chains[f := chains[f] + [|next|]];
            && Stored(data + [None], owner + [Place(f, |chains[f]|)], chains')
            && Filled(data + [None]) == Filled(data)
            && ValsOf(data + [None], chains'[f]) == ValsOf(data, chains[f]) + [None]
            && (forall g | 0 <= g < |chains| && g != f :: ValsOf(data + [None], chains'[g]) == ValsOf(data, chains[g]))
  {
    assert (data + [None])[..|data|] == data;
    forall g | 0 <= g < |chains|
      ensures forall j | 0 <= j < |chains[g]| :: chains[g][j] < |data|
    {
      ChainNodes(next, owner, heads, chains, g);
    }
  }

  lemma ChainWhole(next: seq<int>, owner: seq<Place>, heads: seq<int>, chains: seq<seq<nat>>, data: seq<Data>, f: nat)
    requires Chains(next, owner, heads, chains) && f < |chains| && Stored(data, owner, chains) && |data| == |next|
    ensures Whole(ValsOf(data, chains[f]))
    ensures forall i | 0 <= i < |chains[f]| :: chains[f][i] < |data| && ValsOf(data, chains[f])[i] == data[chains[f][i]]
  {
    ChainNodes(next, owner, heads, chains, f);
  }

  /** The nodes on `gone` have lost their data, and no others. */
  ghost predicate Emptied(data: seq<Data>, data': seq<Data>, gone: seq<nat>) {
    |data'| == |data| && forall m | 0 <= m < |data| :: data'[m] == if m in gone then None else data[m]
  }

  /** After the nodes past the cut have lost their data, what is stored is again on the lists. */
  lemma CutStored(next: seq<int>, owner: seq<Place>, heads: seq<int>, chains: seq<seq<nat>>, data: seq<Data>,
                  data': seq<Data>, f: nat, n: nat)
    requires Chains(next, owner, heads, chains) && f < |chains| && n <= |chains[f]|
    requires Stored(data, owner, chains) && |data| == |next| && Emptied(data, data', chains[f][n..])
    ensures Stored(data', owner, chains[f := chains[f][..n]])
    ensures ValsOf(data', chains[f][..n]) == ValsOf(data, chains[f])[..n]
    ensures forall g | 0 <= g < |chains| && g != f :: ValsOf(data', chains[g]) == ValsOf(data, chains[g])
  {
    var s := chains[f];
    ChainNodes(next, owner, heads, chains, f);
    forall g | 0 <= g < |chains|
      ensures forall j | 0 <= j < |chains[g]| :: chains[g][j] < |data| && (chains[g][j] in s[n..] <==> g == f && j >= n)
    {
      ChainNodes(next, owner, heads, chains, g);
    }
    forall m | 0 <= m < |data'| && data'[m].Some?
      ensures OnList(chains[f := s[..n]], owner[m], m)
    {
      assert OnList(chains, owner[m], m);
    }
  }

  // ---- one mounted instance -------------------------------------------------------------------

  class Instance {
    /** List nodes. */
    var next: seq<int>
    var data: seq<Data>
    /** Inodes: kind, head of the block list, file size. */
    var isFile: seq<bool>
    var heads: seq<int>
    var sizes: seq<nat>
    var usedSize: nat
    var maxSize: nat

    ghost var chains: seq<seq<nat>>
    ghost var owner: seq<Place>

    ghost predicate Linked()
      reads this
    {
      && Chains(next, owner, heads, chains)
      && |data| == |next| && Stored(data, owner, chains)
      && usedSize == BLOCK * Filled(data)
      && |isFile| == |heads| == |sizes| == |chains|
    }

    /** The data blocks of file `f`, in order. */
    ghost function Vals(f: nat): seq<Data>
      reads this
      requires f < |chains|
    {
      ValsOf(data, chains[f])
    }

    /** What holds in every state: lists are linked, and every list reaches the end of its file. */
    ghost predicate Sound()
      reads this
    {
      Linked() && forall f | 0 <= f < |chains| :: Reaches(f)
    }

    ghost predicate Reaches(f: nat)
      reads this
      requires f < |chains| == |sizes|
    {
      sizes[f] <= |chains[f]| * BLOCK && sizes[f] < U32
    }

    /** What holds as long as no write wraps: moreover files are within the limit, with only zeros past their end. */
    ghost predicate Valid()
      reads this
    {
      && Linked()
      && (forall f | 0 <= f < |chains| :: FileOk(f))
    }

    ghost predicate FileOk(f: nat)
      reads this
      requires f < |chains| == |sizes|
    {
      sizes[f] <= |chains[f]| * BLOCK && sizes[f] <= MAX_FILE_SIZE && ZeroFrom(Vals(f), sizes[f])
    }

    constructor (max: nat)
      ensures Sound() && Valid() && chains == [] && usedSize == 0 && maxSize == max
    {
      next, data, isFile, heads, sizes := [], [], [], [], [];
      usedSize, maxSize := 0, max;
      chains, owner := [], [];
    }

    /** tmpfs_create_inode: a new, empty inode; NULL if kmalloc fails. */
    method CreateInode(file: bool) returns (f: int)
      requires Sound()
      modifies `isFile, `heads, `sizes, `chains
      ensures Sound() && (old(Valid()) ==> Valid())
      ensures f == NULL ==> isFile == old(isFile) && sizes == old(sizes) && chains == old(chains)
      ensures f != NULL ==> f == |old(chains)| && chains == old(chains) + [[]] && isFile == old(isFile) + [file]
      ensures f != NULL ==> sizes == old(sizes) + [0]
    {
      hide Filled, At;
      var ok: bool := *;
      if !ok {
        return NULL;
      }
      f := |heads|;
      isFile, heads, sizes, chains := isFile + [file], heads + [NULL], sizes + [0], chains + [[]];
      NothingIsZero(0);
      assert Vals(f) == [];
      EmptyList(next, owner, old(heads), old(chains), data);
      forall g | 0 <= g < |chains| && g != f
        ensures Reaches(g) && (old(FileOk(g)) ==> FileOk(g))
      {
        assert old(Reaches(g)) && chains[g] == old(chains[g]);
      }
    }

    /** tmpfs_free_inode gives back every data block of a file; other inodes have none. */
    method FreeInode(f: nat)
      requires Sound() && f < |chains|
      modifies `next, `data, `heads, `chains, `usedSize, `sizes, `isFile
      ensures Sound() && (old(Valid()) ==> Valid()) && OthersSame(f) && isFile == old(isFile)[f := false]
      ensures old(isFile[f]) ==> chains[f] == []
      ensures !old(isFile[f]) ==> chains[f] == old(chains[f]) && usedSize == old(usedSize)
      ensures |sizes| == |old(sizes)| && forall g | 0 <= g < |sizes| && g != f :: sizes[g] == old(sizes[g])
    {
      hide Chain, Chains, Filled, Stored, At, ZeroFrom;
      ChainNodes(next, owner, heads, chains, f);
      if isFile[f] {
        if heads[f] != NULL {
          Cut(f, heads[f], NULL, 0);
        }
        sizes := sizes[f := 0];
        assert chains[f] == [] && Vals(f) == [];
        NothingIsZero(0);
      } else {
        assert old(Reaches(f)) && (old(FileOk(f)) ==> FileOk(f));
      }
      isFile := isFile[f := false];
      OthersKeep(f);
    }

    /** Other files are as they were. */
    twostate predicate OthersSame(f: nat)
      reads this
    {
      && |chains| == |old(chains)|
      && (forall g | 0 <= g < |chains| && g != f :: chains[g] == old(chains[g]) && Vals(g) == old(Vals(g)))
    }

    twostate lemma OthersKeep(f: nat)
      requires old(Linked()) && Linked() && OthersSame(f) && |sizes| == |old(sizes)|
      requires forall g | 0 <= g < |sizes| && g != f :: sizes[g] == old(sizes[g])
      ensures forall g | 0 <= g < |sizes| && g != f :: FileOk(g) <==> old(FileOk(g))
      ensures forall g | 0 <= g < |sizes| && g != f :: Reaches(g) <==> old(Reaches(g))
    {
      hide Chains, Filled, Stored, ZeroFrom;
      assert forall g | 0 <= g < |sizes| && g != f :: Vals(g) == old(Vals(g)) && chains[g] == old(chains[g]);
    }

    /**
     The node after `prev` (the first one when `prev` is NULL), created if the list ends there;
     NULL if kmalloc fails.
     */
    method NextOrNew(f: nat, prev: int, ghost i: nat) returns (b: int)
      requires Linked() && f < |chains| && i <= |chains[f]| && prev == (if i == 0 then NULL else chains[f][i - 1])
      modifies `next, `data, `heads, `chains, `owner
      ensures Linked() && OthersSame(f)
      ensures if b == NULL then i == |chains[f]| else i < |chains[f]| && chains[f][i] == b
      ensures || (chains[f] == old(chains[f]) && Vals(f) == old(Vals(f)))
              || (b != NULL && chains[f] == old(chains[f]) + [b] && Vals(f) == old(Vals(f)) + [None])
    {
      hide Chain, Filled;
      ChainNodes(next, owner, heads, chains, f);
      assert 0 < i ==> next[chains[f][i - 1]] == if i < |chains[f]| then chains[f][i] else NULL;
      b := if prev == NULL then heads[f] else next[prev];
      if b == NULL {
        var ok: bool := *;
        if ok {
          AppendNode(next, owner, heads, chains, f);
          AppendStored(next, owner, heads, chains, data, f);
          b := |next|;
          if prev == NULL {
            heads := heads[f := b];
          } else {
            next := next[prev := b];
          }
          next, data := next + [NULL], data + [None];
          owner, chains := owner + [Place(f, |chains[f]|)], chains[f := chains[f] + [b]];
        }
      }
    }

    /** Allocates the node's data on first use, zeroed, and copies `bytes` into it; false if kmalloc fails. */
    method StoreChunk(f: nat, ghost i: nat, b: nat, off: nat, bytes: seq<byte>) returns (ok: bool)
      requires Linked() && f < |chains| && i < |chains[f]| && chains[f][i] == b && off + |bytes| <= BLOCK
      modifies `data, `usedSize
      ensures Linked() && OthersSame(f) && Whole(old(Vals(f)))
      ensures Vals(f) == if ok then WriteBlock(old(Vals(f)), i, off, bytes) else old(Vals(f))
    {
      hide Chain, Chains, Filled, Stored, Whole;
      ChainWhole(next, owner, heads, chains, data, f);
      WholeAt(Vals(f), i);
      if data[b].None? {
        ok := *;
        if !ok {
          return;
        }
        FilledUpdate(data, b, Some(Zeros(BLOCK)));
        UpdateVals(next, owner, heads, chains, data, f, i, Some(Zeros(BLOCK)));
        data := data[b := Some(Zeros(BLOCK))];
        usedSize := usedSize + BLOCK;
      }
      ghost var d := Some(Store(data[b].value, off, bytes));
      FilledUpdate(data, b, d);
      UpdateVals(next, owner, heads, chains, data, f, i, d);
      data := data[b := Some(Store(data[b].value, off, bytes))];
      ok := true;
      assert Vals(f) == WriteBlock(old(Vals(f)), i, off, bytes);
    }

    /**
     The first loop of tmpfs_file_write: walks to block `blockNum`, creating nodes as needed;
     NULL if kmalloc fails.
     */
    method WalkTo(f: nat, blockNum: nat) returns (b: int)
      requires Linked() && f < |chains|
      modifies `next, `data, `heads, `chains, `owner
      ensures Linked() && OthersSame(f)
      ensures b != NULL ==> blockNum < |chains[f]| && chains[f][blockNum] == b
      ensures |old(chains[f])| <= |chains[f]| && forall pos: nat :: At(Vals(f), pos) == At(old(Vals(f)), pos)
    {
      hide Linked, At;
      b := NULL;
      ghost var before := Vals(f);
      for i := 0 to blockNum + 1
        invariant Linked() && OthersSame(f) && i <= |chains[f]|
        invariant b == if i == 0 then NULL else chains[f][i - 1]
        invariant |old(chains[f])| <= |chains[f]| && forall pos: nat :: At(Vals(f), pos) == At(before, pos)
      {
        ghost var mid := Vals(f);
        b := NextOrNew(f, b, i);
        if b == NULL {
          return;
        }
        forall pos: nat
          ensures At(Vals(f), pos) == At(mid, pos)
        {
          AppendAt(mid, pos);
        }
      }
    }

    /** The copy loop of tmpfs_file_write, from the node `first` of block `blockNum`. */
    method WriteFrom(f: nat, first: nat, ghost blockNum: nat, offset: nat, buf: seq<byte>) returns (n: nat)
      requires Linked() && f < |chains| && blockNum < |chains[f]| && chains[f][blockNum] == first
      requires blockNum == offset / BLOCK
      modifies `next, `data, `heads, `chains, `owner, `usedSize
      ensures Linked() && OthersSame(f) && n <= |buf|
      ensures Written(old(Vals(f)), Vals(f), offset, buf[..n])
      ensures |old(chains[f])| <= |chains[f]| && offset + n <= |chains[f]| * BLOCK
    {
      hide Linked, At, Written, WriteBlock, Whole;
      var b: int, blockOffset: nat := first, offset % BLOCK;
      ghost var i: nat, before := blockNum, Vals(f);
      n := 0;
      WrittenNothing(before, before, offset);
      assert buf[..0] == [];
      while n < |buf| && b != NULL
        invariant Linked() && OthersSame(f) && n <= |buf| && blockOffset < BLOCK
        invariant b != NULL ==> i < |chains[f]| && chains[f][i] == b
        invariant n < |buf| && b != NULL ==> i * BLOCK + blockOffset == offset + n
        invariant Written(before, Vals(f), offset, buf[..n])
        invariant |old(chains[f])| <= |chains[f]| && offset + n <= |chains[f]| * BLOCK
        decreases |buf| - n, b != NULL
      {
        var chunk := WriteChunk(f, i, b, blockOffset, offset, buf, n, before);
        if chunk == 0 {
          break;
        }
        n := n + chunk;
        if n < |buf| {
          b := Advance(f, i, b, offset, buf[..n], before);
          i := i + 1;
        }
        blockOffset := 0;
      }
    }

    /** The bytes of `buf` from `n` on that fit into node `i`; 0 if kmalloc fails. */
    method WriteChunk(f: nat, ghost i: nat, b: nat, blockOffset: nat, offset: nat, buf: seq<byte>, n: nat,
                      ghost before: seq<Data>)
      returns (chunk: nat)
      requires Linked() && f < |chains| && i < |chains[f]| && chains[f][i] == b && blockOffset < BLOCK
      requires n < |buf| && i * BLOCK + blockOffset == offset + n && Written(before, Vals(f), offset, buf[..n])
      modifies `data, `usedSize
      ensures Linked() && OthersSame(f) && n + chunk <= |buf| && Written(before, Vals(f), offset, buf[..n + chunk])
      ensures chunk > 0 ==> offset + n + chunk <= (i + 1) * BLOCK
      ensures chunk > 0 && n + chunk < |buf| ==> offset + n + chunk == (i + 1) * BLOCK
    {
      hide Linked, At, Written, WriteBlock, Whole;
      chunk := BLOCK - blockOffset;
      if chunk > |buf| - n {
        chunk := |buf| - n;
      }
      ghost var mid := Vals(f);
      var ok := StoreChunk(f, i, b, blockOffset, buf[n..n + chunk]);
      if !ok {
        return 0;
      }
      WrittenMore(before, mid, offset, buf[..n], i, blockOffset, buf[n..n + chunk]);
      assert buf[..n + chunk] == buf[..n] + buf[n..n + chunk];
    }

    /** The node after node `i`, for the rest of the write; NULL if kmalloc fails. */
    method Advance(f: nat, ghost i: nat, b: nat, offset: nat, bytes: seq<byte>, ghost before: seq<Data>)
      returns (following: int)
      requires Linked() && f < |chains| && i < |chains[f]| && chains[f][i] == b
      requires Written(before, Vals(f), offset, bytes)
      modifies `next, `data, `heads, `chains, `owner
      ensures Linked() && OthersSame(f) && Written(before, Vals(f), offset, bytes)
      ensures |old(chains[f])| <= |chains[f]|
      ensures following != NULL ==> i + 1 < |chains[f]| && chains[f][i + 1] == following
    {
      hide Linked, At, Written, Whole;
      WrittenAppend(before, Vals(f), offset, bytes);
      following := NextOrNew(f, b, i + 1);
    }

    /**
     tmpfs_file_write: -1 when refused; otherwise the number of bytes written,
     fewer than asked only when kmalloc fails. The sums are 32-bit: a valid
     instance stays one exactly when the new size is within the limit and no
     byte other than zero was written behind it.
     */
    method Write(f: nat, offset: nat, buf: seq<byte>) returns (n: int)
      requires Sound() && f < |chains| && offset < U32 && |buf| < U32
      modifies `next, `data, `heads, `chains, `owner, `usedSize, `sizes
      ensures Sound() && OthersSame(f) && |sizes| == |old(sizes)|
      ensures forall g | 0 <= g < |sizes| && g != f :: sizes[g] == old(sizes[g])
      ensures n == -1 <==>
                !isFile[f] || (offset + |buf|) % U32 > MAX_FILE_SIZE || old(NoSpace(f, (offset + |buf|) % U32))
      ensures n == -1 ==> Vals(f) == old(Vals(f)) && sizes == old(sizes) && usedSize == old(usedSize)
      ensures n != -1 ==>
                && 0 <= n <= |buf|
                && Written(old(Vals(f)), Vals(f), offset, buf[..n])
                && (sizes[f] == Max(old(sizes[f]), (offset + n) % U32) || (n == 0 && sizes[f] == old(sizes[f])))
      ensures old(Valid()) ==>
                (Valid() <==> n == -1 || (sizes[f] <= MAX_FILE_SIZE && NothingBehind(sizes[f], offset, buf[..n])))
      ensures old(Valid()) && offset + |buf| < U32 ==> Valid()
    {
      hide Chain, Chains, Filled, Stored, At, Written, ZeroFrom, NothingBehind;
      var end := (offset + |buf|) % U32;
      if !isFile[f] {
        return -1;
      }
      if end > MAX_FILE_SIZE {
        return -1;
      }
      if NoSpace(f, end) {
        return -1;
      }
      n := Put(f, offset, buf);
      OthersKeep(f);
      NothingPast(sizes[f], offset, buf[..n]);
      assert old(Valid()) ==> old(FileOk(f));
    }

    /** tmpfs_file_write behind its checks: walk, copy, new size. */
    method Put(f: nat, offset: nat, buf: seq<byte>) returns (n: nat)
      requires Sound() && f < |chains| && offset < U32 && |buf| < U32
      modifies `next, `data, `heads, `chains, `owner, `usedSize, `sizes
      ensures Linked() && OthersSame(f) && |sizes| == |old(sizes)| && Reaches(f)
      ensures forall g | 0 <= g < |sizes| && g != f :: sizes[g] == old(sizes[g])
      ensures n <= |buf| && Written(old(Vals(f)), Vals(f), offset, buf[..n])
      ensures sizes[f] == Max(old(sizes[f]), (offset + n) % U32) || (n == 0 && sizes[f] == old(sizes[f]))
      ensures old(FileOk(f)) ==>
                (FileOk(f) <==> sizes[f] <= MAX_FILE_SIZE && NothingBehind(sizes[f], offset, buf[..n]))
    {
      hide Chain, Chains, Filled, Stored, At, Written, ZeroFrom, NothingBehind;
      ghost var before := Vals(f);
      assert Reaches(f);
      n := 0;
      var b := WalkTo(f, offset / BLOCK);
      assert buf[..0] == [];
      WrittenNothing(before, Vals(f), offset);
      if b != NULL {
        ghost var mid := Vals(f);
        n := WriteFrom(f, b, offset / BLOCK, offset, buf);
        SameStart(before, mid, Vals(f), offset, buf[..n]);
        if (offset + n) % U32 > sizes[f] {
          sizes := sizes[f := (offset + n) % U32];
        }
      }
      if ZeroFrom(before, old(sizes[f])) {
        ZeroBehind(before, Vals(f), offset, buf[..n], old(sizes[f]), sizes[f]);
      }
    }

    /** tmpfs_file_read. The bytes are those of the flat file; the count is clamped to the file and to the list. */
    method Read(f: nat, offset: nat, size: nat) returns (n: int, buf: seq<byte>)
      requires Linked() && f < |chains| && offset < U32 && size < U32
      ensures n == -1 <==> !isFile[f]
      ensures n != -1 ==> n == Min(ReadCount(sizes[f], offset, size), Max(0, |chains[f]| * BLOCK - offset))
      ensures n != -1 ==> buf == Slice(Vals(f), offset, n)
    {
      hide Chain, Chains, Filled, Stored, At, Slice, ReadingAt, ReadCount;
      buf := [];
      if !isFile[f] {
        return -1, [];
      }
      ReadPast(sizes[f], offset, size);
      if offset >= sizes[f] {
        return 0, [];
      }
      var toRead := ReadCount(sizes[f], offset, size);
      ChainNodes(next, owner, heads, chains, f);
      ghost var s := chains[f];
      var block, i: nat := heads[f], 0;
      while i < offset / BLOCK && block != NULL
        invariant i <= |s| && i <= offset / BLOCK && block == if i < |s| then s[i] else NULL
      {
        block, i := next[block], i + 1;
      }
      var blockOffset: nat := offset % BLOCK;
      n := 0;
      ReadingStart(offset, toRead, i, |s|);
      while n < toRead && block != NULL
        invariant 0 <= n <= toRead && blockOffset < BLOCK && ReadingAt(offset, toRead, n, i, blockOffset, |s|)
        invariant i <= |s| && block == if i < |s| then s[i] else NULL
        invariant buf == Slice(Vals(f), offset, n)
        decreases toRead - n
      {
        var chunk := BLOCK - blockOffset;
        if chunk > toRead - n {
          chunk := toRead - n;
        }
        ChainWhole(next, owner, heads, chains, data, f);
        ReadingMore(offset, toRead, n, i, blockOffset, |s|, chunk);
        SliceBlock(Vals(f), i, blockOffset, chunk);
        SliceAppend(Vals(f), offset, n, chunk);
        buf := buf + OrZeros(data[block])[blockOffset..blockOffset + chunk];
        n := n + chunk;
        blockOffset := 0;
        block, i := next[block], i + 1;
      }
      ReadingEnd(offset, toRead, n, i, blockOffset, |s|);
    }

    /** Frees the data of the nodes from `block` to the end of a list that has been cut off. */
    method FreeRest(f: nat, block: int, ghost s: seq<nat>, ghost n: nat)
      requires |data| == |next| && usedSize == BLOCK * Filled(data) && n <= |s|
      requires Threads(next, s, n)
      requires block == if n < |s| then s[n] else NULL
      modifies `data, `usedSize
      ensures |data| == |old(data)| && usedSize == BLOCK * Filled(data) && Emptied(old(data), data, s[n..])
    {
      hide Filled;
      var b := block;
      ghost var i := n;
      while b != NULL
        invariant n <= i <= |s| && b == (if i < |s| then s[i] else NULL)
        invariant |data| == |next| && usedSize == BLOCK * Filled(data)
        invariant forall m | 0 <= m < |data| :: data[m] == if m in s[n..i] then None else old(data[m])
        decreases |s| - i
      {
        var following := next[b];
        assert following == if i + 1 < |s| then s[i + 1] else NULL;
        FilledUpdate(data, b, None);
        if data[b].Some? {
          data := data[b := None];
          usedSize := usedSize - BLOCK;
        }
        assert s[n..i + 1] == s[n..i] + [s[i]];
        b, i := following, i + 1;
      }
      assert s[n..i] == s[n..];
    }

    /**
     tmpfs_file_truncate frees the blocks past the new size and sets the size; the
     bytes of the last block kept stay. A later write that extends the file then
     finds zeros exactly when the list is long enough and the bytes cut off inside
     that block were zeros, as for size 0.
     */
    method Truncate(f: nat, size: nat) returns (r: int)
      requires Sound() && f < |chains| && size < U32
      modifies `next, `data, `heads, `chains, `usedSize, `sizes
      ensures Linked() && OthersSame(f) && |sizes| == |old(sizes)|
      ensures forall g | 0 <= g < |sizes| && g != f :: sizes[g] == old(sizes[g])
      ensures (r == -1 <==> !isFile[f] || size > MAX_FILE_SIZE) && (r == 0 || r == -1)
      ensures r == -1 ==> Sound() && (old(Valid()) ==> Valid()) && Vals(f) == old(Vals(f)) && sizes == old(sizes)
      ensures r != -1 ==> sizes[f] == size && Kept(old(Vals(f)), Vals(f), size)
      ensures r != -1 ==> (Sound() <==> size <= |old(chains[f])| * BLOCK)
      ensures r != -1 && old(Valid()) ==>
                (Valid() <==> size <= |old(chains[f])| * BLOCK && ZeroTail(old(Vals(f)), size, old(sizes[f])))
      ensures r != -1 && size == 0 ==> Sound() && (old(Valid()) ==> Valid()) && Vals(f) == []
    {
      hide Chain, Chains, Filled, Stored, At, ZeroFrom;
      if !isFile[f] || size > MAX_FILE_SIZE {
        return -1;
      }
      var newBlocks := (size + BLOCK - 1) / BLOCK;
      ghost var s := chains[f];
      ChainNodes(next, owner, heads, chains, f);
      var block, prev, blockNum: nat := heads[f], NULL, 0;
      while block != NULL && blockNum < newBlocks
        invariant blockNum <= |s| && blockNum <= newBlocks
        invariant block == (if blockNum < |s| then s[blockNum] else NULL)
        invariant prev == (if blockNum == 0 then NULL else s[blockNum - 1])
        decreases newBlocks - blockNum
      {
        blockNum, prev, block := blockNum + 1, block, next[block];
      }
      if block != NULL {
        Cut(f, block, prev, blockNum);
      }
      assert s[..blockNum] == chains[f];
      assert Vals(f) == old(Vals(f))[..blockNum];
      sizes := sizes[f := size];
      OthersKeep(f);
      Shortened(f, blockNum, size, old(Vals(f)), old(sizes[f]));
      assert old(Valid()) ==> old(FileOk(f));
      assert forall g | 0 <= g < |chains| && g != f :: old(Reaches(g));
      r := 0;
    }

    /** What truncation leaves of file `f`. */
    lemma Shortened(f: nat, n: nat, size: nat, before: seq<Data>, oldSize: nat)
      requires Linked() && f < |chains| && sizes[f] == size <= MAX_FILE_SIZE
      requires n == Min((size + BLOCK - 1) / BLOCK, |before|) && |chains[f]| == n && Vals(f) == before[..n]
      ensures Kept(before, Vals(f), size)
      ensures Reaches(f) <==> size <= |before| * BLOCK
      ensures ZeroFrom(before, oldSize) ==> (FileOk(f) <==> size <= |before| * BLOCK && ZeroTail(before, size, oldSize))
      ensures size == 0 ==> FileOk(f) && Vals(f) == []
    {
      hide Chains, Filled, Stored, At, ZeroFrom, ZeroTail, Kept, Linked;
      TruncatedBytes(before, n, size);
      if ZeroFrom(before, oldSize) { TailIff(before, Vals(f), size, oldSize); }
      NothingIsZero(0);
    }

    /** Cuts the list of `f` before its node number `n`. */
    method CutLink(f: nat, prev: int, ghost n: nat)
      requires Chains(next, owner, heads, chains) && f < |chains| && n < |chains[f]|
      requires prev == if n == 0 then NULL else chains[f][n - 1]
      modifies `next, `heads
      ensures Chains(next, owner, heads, chains[f := chains[f][..n]]) && |next| == |old(next)|
      ensures |heads| == |old(heads)|
      ensures Threads(next, chains[f], n)
    {
      hide Chain, Chains, Threads;
      CutChain(next, owner, heads, chains, f, n);
      CutTail(next, owner, heads, chains, f, n);
      ChainsSize(next, owner, heads, chains);
      if prev != NULL {
        next := next[prev := NULL];
      } else {
        heads := heads[f := NULL];
      }
    }

    /** Cuts the list of `f` before `block`, its node number `n`, and frees the rest. */
    method Cut(f: nat, block: nat, prev: int, ghost n: nat)
      requires Linked() && f < |chains| && n < |chains[f]| && block == chains[f][n]
      requires prev == if n == 0 then NULL else chains[f][n - 1]
      modifies `next, `data, `heads, `chains, `usedSize
      ensures Linked() && OthersSame(f) && chains[f] == old(chains[f])[..n] && Vals(f) == old(Vals(f))[..n]
    {
      hide Chain, Chains, Filled, Stored, ValsOf, Emptied, Threads;
      ghost var s := chains[f];
      CutLink(f, prev, n);
      FreeRest(f, block, s, n);
      CutStored(old(next), owner, old(heads), old(chains), old(data), data, f, n);
      chains := chains[f := s[..n]];
    }

    // ---- runs ------------------------------------------------------------------------------------

    /** The model: of each inode every byte, written or not, and the size. */
    ghost predicate Shows(m: seq<Model>)
      reads this
    {
      |m| == |chains| == |sizes| && forall f | 0 <= f < |m| :: ShowsFile(m[f], Vals(f), sizes[f])
    }

    /** A write, against the model. */
    method PerformWrite(f: nat, offset: nat, buf: seq<byte>, ghost m: seq<Model>)
      returns (out: Outcome, ghost m': seq<Model>)
      requires Sound() && Shows(m) && f < |m| && offset < U32 && |buf| < U32
      modifies `next, `data, `heads, `chains, `owner, `usedSize, `sizes
      ensures Sound() && Shows(m') && |isFile| == |m'| == |m| && Explains(isFile, m, OpWrite(f, offset, buf), out, m')
      ensures old(Valid()) && offset + |buf| < U32 ==> Valid()
    {
      hide Chains, Filled, Stored, At, Written, ZeroFrom, Patch, ShowsFile, NothingBehind, Reaches, FileOk;
      assert ShowsFile(m[f], Vals(f), sizes[f]);
      assert m[f].size == sizes[f] by { SizeShown(m[f], Vals(f), sizes[f]); }
      BlocksFit(sizes[f], (offset + |buf|) % U32, usedSize, maxSize);
      var n := Write(f, offset, buf);
      out := Outcome(n, []);
      m' := m;
      if n != -1 {
        ShowsWritten(m[f], old(Vals(f)), Vals(f), old(sizes[f]), sizes[f], offset, buf[..n]);
        if sizes[f] == Max(old(sizes[f]), (offset + n) % U32) {
          m' := m[f := Put32(m[f], offset, buf[..n])];
        }
      }
    }

    method PerformRead(f: nat, offset: nat, size: nat, ghost m: seq<Model>) returns (out: Outcome)
      requires Sound() && Shows(m) && f < |m| && offset < U32 && size < U32
      ensures |isFile| == |m| && Explains(isFile, m, OpRead(f, offset, size), out, m)
    {
      hide Chains, Filled, Stored, At, Slice, Explains, ReadCount;
      assert Reaches(f) && ShowsFile(m[f], Vals(f), sizes[f]);
      var n, bytes := Read(f, offset, size);
      out := Outcome(n, bytes);
      ReadExplained(isFile, m, f, offset, size, Vals(f), |chains[f]| * BLOCK, out);
    }

    method PerformClear(f: nat, ghost m: seq<Model>) returns (out: Outcome, ghost m': seq<Model>)
      requires Sound() && Shows(m) && f < |m|
      modifies `next, `data, `heads, `chains, `usedSize, `sizes
      ensures Sound() && Shows(m') && |isFile| == |m'| == |m| && Explains(isFile, m, OpClear(f), out, m')
      ensures old(Valid()) ==> Valid()
    {
      hide Chains, Filled, Stored, At, ZeroFrom, Kept, ZeroTail, ShowsFile, Reaches, FileOk;
      assert ShowsFile(m[f], Vals(f), sizes[f]);
      var r := Truncate(f, 0);
      out := Outcome(r, []);
      m' := if r == -1 then m else m[f := EMPTY];
      ShowsEmpty();
    }

    /**
     Over any run of writes, reads and truncations to 0, with kmalloc failing
     anywhere, a file is its bytes and its size. The instance stays valid while
     no write wraps.
     */
    method Run(ops: seq<Op>, ghost m: seq<Model>) returns (outs: seq<Outcome>, ghost ms: seq<seq<Model>>)
      requires Sound() && Shows(m) && forall i | 0 <= i < |ops| :: ops[i].f < |m| && Words(ops[i])
      modifies `next, `data, `heads, `chains, `owner, `usedSize, `sizes
      ensures Sound() && |outs| == |ops| && |ms| == |ops| + 1 && ms[0] == m && Shows(ms[|ops|])
      ensures forall i: nat | i < |ops| :: StepAt(isFile, ops, outs, ms, i)
      ensures old(Valid()) && (forall i | 0 <= i < |ops| :: NoWrap(ops[i])) ==> Valid()
    {
      hide Linked, FileOk, Reaches, Shows, Explains, NoWrap, Words, StepAt;
      ShowsSize(m);
      outs, ms := [], [m];
      for i := 0 to |ops|
        invariant Sound() && |outs| == i && |ms| == i + 1 && ms[0] == m && Shows(ms[i]) && |ms[i]| == |m| == |isFile|
        invariant forall j: nat | j < i :: StepAt(isFile, ops, outs, ms, j)
        invariant old(Valid()) && (forall j | 0 <= j < |ops| :: NoWrap(ops[j])) ==> Valid()
      {
        var out;
        ghost var m' := ms[i];
        InWords(ops[i]);
        match ops[i] {
          case OpWrite(f, offset, buf) => out, m' := PerformWrite(f, offset, buf, ms[i]);
          case OpRead(f, offset, size) => out := PerformRead(f, offset, size, ms[i]);
          case OpClear(f) => out, m' := PerformClear(f, ms[i]);
        }
        StepMore(isFile, ops, outs, ms, out, m');
        outs, ms := outs + [out], ms + [m'];
      }
    }

    /** In a valid instance a file is a flat array: nothing but zeros behind its end. */
    lemma ZeroPast(m: seq<Model>, f: nat, pos: nat)
      requires Valid() && Shows(m) && f < |m| && m[f].size <= pos
      ensures ByteAt(m[f].bytes, pos) == 0
    {
      hide Chains, Stored, Filled, At;
      assert FileOk(f) && ShowsFile(m[f], Vals(f), sizes[f]);
    }

    lemma ShowsSize(m: seq<Model>)
      requires Sound() && Shows(m)
      ensures |m| == |isFile|
    {
    }

    predicate NoSpace(f: nat, end: nat)
      requires f < |sizes|
      reads this
    {
      Short(sizes[f], end, usedSize, maxSize)
    }
  }

  /** The space test of tmpfs_file_write, in 32 bits. */
  predicate Short(size: nat, end: nat, used: nat, max: nat) {
    var needed, current := (end + BLOCK - 1) % U32 / BLOCK, (size + BLOCK - 1) % U32 / BLOCK;
    needed > current && used + (needed - current) * BLOCK > max
  }

  /** With so many more blocks the file would reach `end`. */
  predicate Enough(size: nat, end: nat, blocks: nat) {
    end <= RoundUp(size) + blocks * BLOCK
  }

  /** Rounding up gives the least whole number of blocks. */
  lemma RoundUpLeast(size: nat)
    ensures size <= RoundUp(size) < size + BLOCK && RoundUp(size) % BLOCK == 0
  {
  }

  /** Space is short exactly when the file must grow and no number of blocks that suffices fits. */
  lemma ShortExact(size: nat, end: nat, used: nat, max: nat)
    requires size + BLOCK - 1 < U32 && end + BLOCK - 1 < U32
    ensures Short(size, end, used, max) <==>
            end > RoundUp(size) && forall blocks: nat | Enough(size, end, blocks) :: used + blocks * BLOCK > max
  {
    var needed, current := (end + BLOCK - 1) / BLOCK, (size + BLOCK - 1) / BLOCK;
    if needed > current {
      assert Enough(size, end, needed - current);
    }
  }

  lemma EmptyList(next: seq<int>, owner: seq<Place>, heads: seq<int>, chains: seq<seq<nat>>, data: seq<Data>)
    requires Chains(next, owner, heads, chains) && Stored(data, owner, chains) && |data| == |next|
    ensures Chains(next, owner, heads + [NULL], chains + [[]]) && Stored(data, owner, chains + [[]])
  {
    forall n | 0 <= n < |data| && data[n].Some?
      ensures OnList(chains + [[]], owner[n], n)
    {
      assert OnList(chains, owner[n], n);
    }
  }

  lemma NothingIsZero(size: nat)
    ensures ZeroFrom([], size)
  {
  }

  lemma ReadPast(fileSize: nat, offset: nat, size: nat)
    ensures offset >= fileSize ==> ReadCount(fileSize, offset, size) == 0
  {
  }

  /** Where the copy loop of a read stands after `n` bytes: at `blockOffset` of node `i` of a list of `len`. */
  predicate ReadingAt(offset: nat, toRead: nat, n: nat, i: nat, blockOffset: nat, len: nat) {
    && i <= len && n <= toRead
    && (n < toRead && i < len ==> i * BLOCK + blockOffset == offset + n)
    && (n < toRead ==> i * BLOCK <= offset + n)
    && (n > 0 ==> offset + n <= len * BLOCK)
  }

  lemma ReadingStart(offset: nat, toRead: nat, i: nat, len: nat)
    requires i <= len && i <= offset / BLOCK && (i == offset / BLOCK || i == len)
    ensures ReadingAt(offset, toRead, 0, i, offset % BLOCK, len)
  {
  }

  lemma ReadingMore(offset: nat, toRead: nat, n: nat, i: nat, blockOffset: nat, len: nat, chunk: nat)
    requires ReadingAt(offset, toRead, n, i, blockOffset, len) && n < toRead && i < len && blockOffset < BLOCK
    requires chunk == Min(BLOCK - blockOffset, toRead - n)
    ensures i * BLOCK + blockOffset == offset + n && ReadingAt(offset, toRead, n + chunk, i + 1, 0, len)
  {
  }

  lemma ReadingEnd(offset: nat, toRead: nat, n: nat, i: nat, blockOffset: nat, len: nat)
    requires ReadingAt(offset, toRead, n, i, blockOffset, len) && (n == toRead || i == len)
    ensures n == Min(toRead, Max(0, len * BLOCK - offset))
  {
  }

  /**
   `Read` stops at the end of the list, so it returns what lies before the end of
   the file exactly when the 32-bit bound check is exact or the list ends with the file.
   */
  lemma ReadClipped(offset: nat, size: nat, fileSize: nat, listBytes: nat)
    requires fileSize <= listBytes && fileSize < U32 && offset < U32 && size < U32
    ensures Min(ReadCount(fileSize, offset, size), Max(0, listBytes - offset)) == Min(size, Max(0, fileSize - offset))
            <==> offset + size < U32 || offset >= fileSize || offset + size <= fileSize || fileSize == listBytes
  {
    if offset < fileSize { ReadCountExact(fileSize, offset, size); }
  }

  /** No byte other than zero was written at or behind position `size`. */
  predicate NothingBehind(size: nat, offset: nat, bytes: seq<byte>) {
    forall k: nat | k < |bytes| && offset + k >= size :: bytes[k] == 0
  }

  lemma NothingPast(size: nat, offset: nat, bytes: seq<byte>)
    ensures offset + |bytes| <= size || bytes == [] ==> NothingBehind(size, offset, bytes)
  {
  }

  lemma ZeroBehind(before: seq<Data>, after: seq<Data>, lo: nat, bytes: seq<byte>, size: nat, newSize: nat)
    requires Written(before, after, lo, bytes) && ZeroFrom(before, size) && size <= newSize
    ensures ZeroFrom(after, newSize) <==> NothingBehind(newSize, lo, bytes)
  {
    hide At;
    if ZeroFrom(after, newSize) {
      forall k: nat | k < |bytes| && lo + k >= newSize
        ensures bytes[k] == 0
      {
        assert At(after, lo + k) == bytes[k];
      }
    }
  }

  /** The 32-bit test of the size limit is exact unless the sum wraps to below it. */
  lemma LimitExact(offset: nat, n: nat)
    requires offset < U32 && n < U32
    ensures ((offset + n) % U32 > MAX_FILE_SIZE <==> offset + n > MAX_FILE_SIZE)
            <==> !(U32 <= offset + n <= U32 + MAX_FILE_SIZE)
  {
    if U32 <= offset + n { assert (offset + n) % U32 == offset + n - U32; }
  }

  /**
   Two pages at 4 GiB less one page pass the test, and the file is broken however many bytes
   other than zero arrive.
   */
  lemma LimitExample(n: nat)
    requires n <= 0x2000
    ensures (0xFFFF_F000 + 0x2000) % U32 <= MAX_FILE_SIZE < 0xFFFF_F000 + 0x2000
    ensures 0 < n ==>
              !((0xFFFF_F000 + n) % U32 <= MAX_FILE_SIZE &&
                NothingBehind((0xFFFF_F000 + n) % U32, 0xFFFF_F000, Ones(n)))
  {
    if 0 < n { assert Ones(n)[0] == 1; }
  }

  function Ones(n: nat): (r: seq<byte>)
    ensures |r| == n && forall i | 0 <= i < n :: r[i] == 1
  {
    seq(n, _ => 1)
  }

  // ---- files as bytes and a size ------------------------------------------------------------------

  datatype Op = OpWrite(f: nat, offset: nat, buf: seq<byte>) | OpRead(f: nat, offset: nat, size: nat) | OpClear(f: nat)

  datatype Outcome = Outcome(n: int, bytes: seq<byte>)

  /** A file: a byte at every position, and a size. */
  datatype Model = Model(bytes: imap<nat, byte>, size: nat)

  ghost const EMPTY: Model := Model(imap pos: nat :: 0, 0)

  predicate Words(op: Op) {
    match op
    case OpWrite(_, offset, buf) => offset < U32 && |buf| < U32
    case OpRead(_, offset, size) => offset < U32 && size < U32
    case OpClear(_) => true
  }

  /** Writes whose end is a 32-bit number. */
  predicate NoWrap(op: Op) {
    op.OpWrite? ==> op.offset + |op.buf| < U32
  }

  lemma InWords(op: Op)
    requires Words(op)
    ensures op.OpWrite? ==> op.offset < U32 && |op.buf| < U32 && (NoWrap(op) <==> op.offset + |op.buf| < U32)
    ensures op.OpRead? ==> op.offset < U32 && op.size < U32
  {
  }

  ghost predicate ShowsFile(m: Model, vals: seq<Data>, size: nat) {
    m.size == size && forall pos: nat :: ByteAt(m.bytes, pos) == At(vals, pos)
  }

  ghost function ByteAt(b: imap<nat, byte>, pos: nat): byte {
    if pos in b then b[pos] else 0
  }

  /** The bytes at `offset` and behind. */
  ghost predicate Reads(m: Model, offset: nat, bytes: seq<byte>) {
    forall i: nat | i < |bytes| :: bytes[i] == ByteAt(m.bytes, offset + i)
  }

  /** The bytes with others written from `offset` on. */
  ghost function Patch(b: imap<nat, byte>, offset: nat, bytes: seq<byte>): imap<nat, byte> {
    imap pos: nat :: if offset <= pos < offset + |bytes| then bytes[pos - offset] else ByteAt(b, pos)
  }

  /** A file after a write: the bytes at their places, the size the end in 32 bits if that is larger. */
  ghost function Put32(m: Model, offset: nat, bytes: seq<byte>): Model {
    Model(Patch(m.bytes, offset, bytes), Max(m.size, (offset + |bytes|) % U32))
  }

  lemma SizeShown(m: Model, vals: seq<Data>, size: nat)
    requires ShowsFile(m, vals, size)
    ensures m.size == size
  {
  }

  lemma BlocksFit(size: nat, end: nat, used: nat, max: nat)
    requires end < U32
    ensures InBlocks(size, end) ==> !Short(size, end, used, max)
  {
    if InBlocks(size, end) { ShortExact(size, end, used, max); }
  }

  lemma ShowsWritten(m: Model, before: seq<Data>, after: seq<Data>, size: nat, newSize: nat, offset: nat,
                     bytes: seq<byte>)
    requires ShowsFile(m, before, size) && Written(before, after, offset, bytes)
    ensures newSize == Max(size, (offset + |bytes|) % U32) ==> ShowsFile(Put32(m, offset, bytes), after, newSize)
    ensures bytes == [] && newSize == size ==> ShowsFile(m, after, newSize)
  {
    hide At;
  }

  lemma ShowsSlice(m: Model, vals: seq<Data>, size: nat, offset: nat, n: nat)
    requires ShowsFile(m, vals, size)
    ensures Reads(m, offset, Slice(vals, offset, n))
  {
    hide At, Slice;
  }

  lemma ShowsEmpty()
    ensures ShowsFile(EMPTY, [], 0)
  {
  }

  /** How far a read of a file goes: to its end, and past it only when the end of the request wraps. */
  lemma ReadBounds(offset: nat, size: nat, fileSize: nat, listBytes: nat)
    requires fileSize <= listBytes && fileSize < U32 && offset < U32 && size < U32
    ensures var n := Min(ReadCount(fileSize, offset, size), Max(0, listBytes - offset));
            && Min(size, Max(0, fileSize - offset)) <= n <= size
            && (offset + size < U32 || offset >= fileSize ==> n == Min(size, Max(0, fileSize - offset)))
  {
    if offset + size >= U32 { assert (offset + size) % U32 == offset + size - U32; }
  }

  /** An end within the limit and within the blocks that the size takes up already. */
  predicate InBlocks(size: nat, end: nat) {
    end <= MAX_FILE_SIZE && end <= RoundUp(size) && size + BLOCK - 1 < U32
  }

  /** What a call may answer, and what it does to the files. */
  ghost predicate Explains(isFile: seq<bool>, m: seq<Model>, op: Op, out: Outcome, m': seq<Model>)
    requires |m| == |m'| == |isFile| && op.f < |m|
  {
    match op
    case OpWrite(f, offset, buf) =>
      && (!isFile[f] || (offset + |buf|) % U32 > MAX_FILE_SIZE ==> out.n == -1)
      && (isFile[f] && InBlocks(m[f].size, (offset + |buf|) % U32) ==> out.n != -1)
      && (out.n == -1 ==> m' == m)
      && (out.n != -1 ==> 0 <= out.n <= |buf|)
      && (out.n != -1 ==> m' == m[f := Put32(m[f], offset, buf[..out.n])] || (out.n == 0 && m' == m))
    case OpRead(f, offset, size) =>
      && m' == m
      && (if !isFile[f] then out.n == -1
          else
            var rest := Min(size, Max(0, m[f].size - offset));
            && rest <= out.n <= size && (offset + size < U32 || offset >= m[f].size ==> out.n == rest)
            && |out.bytes| == out.n && Reads(m[f], offset, out.bytes))
    case OpClear(f) => (out.n == if isFile[f] then 0 else -1) && m' == if isFile[f] then m[f := EMPTY] else m
  }

  lemma ReadExplained(isFile: seq<bool>, m: seq<Model>, f: nat, offset: nat, size: nat, vals: seq<Data>,
                      listBytes: nat, out: Outcome)
    requires |m| == |isFile| && f < |m| && offset < U32 && size < U32
    requires ShowsFile(m[f], vals, m[f].size) && m[f].size <= listBytes && m[f].size < U32
    requires out.n == -1 <==> !isFile[f]
    requires out.n != -1 ==> out.n == Min(ReadCount(m[f].size, offset, size), Max(0, listBytes - offset))
    requires out.n != -1 ==> out.bytes == Slice(vals, offset, out.n)
    ensures Explains(isFile, m, OpRead(f, offset, size), out, m)
  {
    hide ReadCount, Slice, ShowsFile;
    ReadBounds(offset, size, m[f].size, listBytes);
    if out.n != -1 { ShowsSlice(m[f], vals, m[f].size, offset, out.n); }
  }

  /** Step `i` of a run: answers and arrays agree. */
  ghost predicate StepAt(isFile: seq<bool>, ops: seq<Op>, outs: seq<Outcome>, ms: seq<seq<Model>>, i: nat) {
    && i < |ops| && i < |outs| && i + 1 < |ms| && |ms[i]| == |ms[i + 1]| == |isFile| && ops[i].f < |isFile|
    && Explains(isFile, ms[i], ops[i], outs[i], ms[i + 1])
  }

  lemma StepMore(isFile: seq<bool>, ops: seq<Op>, outs: seq<Outcome>, ms: seq<seq<Model>>, out: Outcome, m': seq<Model>)
    requires |outs| < |ops| && |ms| == |outs| + 1 && |ms[|outs|]| == |m'| == |isFile| && ops[|outs|].f < |isFile|
    requires Explains(isFile, ms[|outs|], ops[|outs|], out, m')
    requires forall j: nat | j < |outs| :: StepAt(isFile, ops, outs, ms, j)
    ensures forall j: nat | j < |outs| + 1 :: StepAt(isFile, ops, outs + [out], ms + [m'], j)
  {
    hide Explains;
    forall j: nat | j < |outs| + 1
      ensures StepAt(isFile, ops, outs + [out], ms + [m'], j)
    {
      if j < |outs| { assert StepAt(isFile, ops, outs, ms, j); }
    }
  }

  // ---- truncation --------------------------------------------------------------------------------

  function RoundUp(size: nat): nat {
    (size + BLOCK - 1) / BLOCK * BLOCK
  }

  /** The bytes up to the end of the last block kept are as before, the others are zero. */
  ghost predicate Kept(before: seq<Data>, after: seq<Data>, size: nat) {
    forall pos: nat :: At(after, pos) == if pos < RoundUp(size) then At(before, pos) else 0
  }

  /** The bytes of the file from `size` to the end of that block are zero. */
  ghost predicate ZeroTail(vals: seq<Data>, size: nat, oldSize: nat) {
    forall pos: nat | size <= pos < RoundUp(size) && pos < oldSize :: At(vals, pos) == 0
  }

  lemma TruncatedBytes(vals: seq<Data>, n: nat, size: nat)
    requires n == Min((size + BLOCK - 1) / BLOCK, |vals|)
    ensures Kept(vals, vals[..n], size)
    ensures size <= n * BLOCK <==> size <= |vals| * BLOCK
  {
    hide At;
    forall pos: nat
      ensures At(vals[..n], pos) == if pos < RoundUp(size) then At(vals, pos) else 0
    {
      PrefixAt(vals, n, pos, size);
    }
  }

  lemma PrefixAt(vals: seq<Data>, n: nat, pos: nat, size: nat)
    requires n == Min((size + BLOCK - 1) / BLOCK, |vals|)
    ensures At(vals[..n], pos) == if pos < RoundUp(size) then At(vals, pos) else 0
  {
  }

  lemma TailIff(vals: seq<Data>, kept: seq<Data>, size: nat, oldSize: nat)
    requires Kept(vals, kept, size) && ZeroFrom(vals, oldSize)
    ensures ZeroFrom(kept, size) <==> ZeroTail(vals, size, oldSize)
  {
    hide At, RoundUp;
    if ZeroFrom(kept, size) {
      forall pos: nat | size <= pos < RoundUp(size) && pos < oldSize
        ensures At(vals, pos) == 0
      {
        assert At(kept, pos) == 0;
      }
    }
  }

  /**
   Truncating eight bytes to five and then writing one byte at position nine
   brings the byte cut off at position six back.
   */
  lemma TruncateExample(vals: seq<Data>, kept: seq<Data>, after: seq<Data>)
    requires At(vals, 6) == 7 && Kept(vals, kept, 5) && Written(kept, after, 9, [1])
    ensures At(after, 6) == 7 && !ZeroTail(vals, 5, 8)
  {
    hide At;
    assert RoundUp(5) == BLOCK;
  }

  lemma SameStart(before: seq<Data>, mid: seq<Data>, after: seq<Data>, lo: nat, bytes: seq<byte>)
    requires Written(before, mid, lo, []) && Written(mid, after, lo, bytes)
    ensures Written(before, after, lo, bytes)
  {
    hide At;
  }
}
