/** Extent trees: the walk of kernel/ext2.c against a search in the flattened list of extents. */
module Ext4Extents {
  import opened Bytes
  import opened Ext2Disk

  const MAGIC: nat := 0xF30A

  /** `length` logical blocks from `first` on, stored from block `start` on. */
  datatype Extent = Extent(first: nat, length: nat, start: nat)

  predicate Covers(e: Extent, block: nat) {
    e.first <= block < e.first + e.length
  }

  /** The test of ext4_find_extent_in_leaf, whose sum wraps at 32 bits. */
  predicate Hits(e: Extent, block: nat) {
    e.first <= block < (e.first + e.length) % U32
  }

  /** The test finds the blocks of an extent exactly when its end does not reach 2^32. */
  lemma HitsExact(e: Extent)
    requires e.first < U32 && e.length < 0x1_0000
    ensures (forall block: nat | block < U32 :: Hits(e, block) <==> Covers(e, block)) <==>
              e.length == 0 || e.first + e.length < U32
  {
    if 0 < e.length && U32 <= e.first + e.length {
      assert Covers(e, e.first) && (e.first + e.length) % U32 == e.first + e.length - U32;
      assert !Hits(e, e.first);
    }
  }

  /** An extent of the last ten logical blocks is never found. */
  lemma HitsExample(e: Extent)
    requires e.first == U32 - 10 && e.length == 10
    ensures Covers(e, U32 - 10) && forall block: nat :: !Hits(e, block)
  {
  }

  function Physical(e: Extent, block: nat): nat
    requires e.first <= block
  {
    (e.start + (block - e.first)) % U32
  }

  // ---- nodes as bytes ----------------------------------------------------------------------------

  /** A node: a header of twelve bytes, then entries of twelve bytes. */
  predicate Shape(d: seq<byte>) {
    |d| >= 12 && 12 + 12 * Load16(d, 2) <= |d|
  }

  function Count(d: seq<byte>): nat
    requires Shape(d)
  {
    Load16(d, 2)
  }

  function Depth(d: seq<byte>): nat
    requires Shape(d)
  {
    Load16(d, 6)
  }

  /** The first logical block of entry `i`, of an index or an extent. */
  function Key(d: seq<byte>, i: nat): u32
    requires Shape(d) && i < Count(d)
  {
    Load32(d, 12 + 12 * i)
  }

  /** The node below index `i`; the walk uses the low 32 bits of the block number. */
  function Leaf(d: seq<byte>, i: nat): nat
    requires Shape(d) && i < Count(d)
  {
    Low32(0x1_0000_0000 * Load16(d, 20 + 12 * i) + Load32(d, 16 + 12 * i))
  }

  function Low32(x: nat): nat {
    x % U32
  }

  function ExtentAt(d: seq<byte>, i: nat): Extent
    requires Shape(d) && i < Count(d)
  {
    Extent(Key(d, i), Load16(d, 16 + 12 * i), 0x1_0000_0000 * Load16(d, 18 + 12 * i) + Load32(d, 20 + 12 * i))
  }

  // ---- the layout of a node --------------------------------------------------------------------

  /** The header as ext4 writes it: magic number, entries in use, room, depth, generation. */
  lemma HeaderLayout(d: seq<byte>, magic: u16, entries: u16, room: u16, depth: u16)
    requires Shape(d)
    requires d[..8] == Bytes16(magic) + Bytes16(entries) + Bytes16(room) + Bytes16(depth)
    ensures Load16(d, 0) == magic && Count(d) == entries && Depth(d) == depth
  {
    hide Load16, Bytes16;
    var h := d[..8];
    LoadSlice(d, 0, Bytes16(magic));
    LoadSlice(d, 2, Bytes16(entries));
    LoadSlice(d, 6, Bytes16(depth));
  }

  /** An extent as ext4 writes it: first block, length, high and low part of the start. */
  lemma ExtentLayout(d: seq<byte>, i: nat, first: u32, length: u16, high: u16, low: u32)
    requires Shape(d) && i < Count(d)
    requires d[12 + 12 * i..24 + 12 * i] == Bytes32(first) + Bytes16(length) + Bytes16(high) + Bytes32(low)
    ensures ExtentAt(d, i) == Extent(first, length, 0x1_0000_0000 * high + low)
  {
    hide Load16, Load32, Bytes16, Bytes32;
    var at := 12 + 12 * i;
    var r := d[at..at + 12];
    SubSlice(d, at, at + 12, 0, 4);
    SubSlice(d, at, at + 12, 4, 6);
    SubSlice(d, at, at + 12, 6, 8);
    SubSlice(d, at, at + 12, 8, 12);
    assert r[0..4] == Bytes32(first) && r[4..6] == Bytes16(length) && r[6..8] == Bytes16(high) &&
      r[8..12] == Bytes32(low);
    LoadSlice(d, 12 + 12 * i, Bytes32(first));
    LoadSlice(d, 16 + 12 * i, Bytes16(length));
    LoadSlice(d, 18 + 12 * i, Bytes16(high));
    LoadSlice(d, 20 + 12 * i, Bytes32(low));
  }

  /** An index as ext4 writes it: first block, low and high part of the node below. */
  lemma IndexLayout(d: seq<byte>, i: nat, first: u32, low: u32, high: u16)
    requires Shape(d) && i < Count(d) && d[12 + 12 * i..22 + 12 * i] == Bytes32(first) + Bytes32(low) + Bytes16(high)
    ensures Key(d, i) == first && Leaf(d, i) == low
  {
    hide Load16, Load32, Bytes16, Bytes32;
    var at := 12 + 12 * i;
    var r := d[at..at + 10];
    SubSlice(d, at, at + 10, 0, 4);
    SubSlice(d, at, at + 10, 4, 8);
    SubSlice(d, at, at + 10, 8, 10);
    assert r[0..4] == Bytes32(first) && r[4..8] == Bytes32(low) && r[8..10] == Bytes16(high);
    LoadSlice(d, 12 + 12 * i, Bytes32(first));
    LoadSlice(d, 16 + 12 * i, Bytes32(low));
    LoadSlice(d, 20 + 12 * i, Bytes16(high));
  }

  /** A node holds as many entries as fit whole behind the header: four in the sixty bytes of an inode. */
  lemma NodeRoom(d: seq<byte>)
    requires |d| >= 12
    ensures Shape(d) <==> Load16(d, 2) <= (|d| - 12) / 12
    ensures |d| == 60 ==> (Shape(d) <==> Load16(d, 2) <= 4)
  {
    hide Load16;
  }

  // ---- well-formed trees ---------------------------------------------------------------------------

  /** Where the range of entry `i` ends. */
  function Next(d: seq<byte>, i: nat, hi: nat): nat
    requires Shape(d) && i < Count(d)
  {
    if i + 1 < Count(d) then Key(d, i + 1) else hi
  }

  ghost predicate Ordered(d: seq<byte>, lo: nat, hi: nat)
    requires Shape(d)
  {
    (Count(d) > 0 ==> lo <= Key(d, 0)) && forall i: nat | i < Count(d) :: Key(d, i) < Next(d, i, hi)
  }

  /** A node the walk gives up at: past the device, or without the magic number. */
  predicate Broken(disk: Disk, b: nat) {
    b >= |disk| || (|disk[b]| >= 12 && Load16(disk[b], 0) != MAGIC)
  }

  /** A tree of the given depth for the logical blocks from `lo` up to `hi`; subtrees may be broken. */
  ghost predicate Tree(disk: Disk, d: seq<byte>, depth: nat, lo: nat, hi: nat)
    decreases depth, 1
  {
    && Shape(d) && Load16(d, 0) == MAGIC && Depth(d) == depth && Ordered(d, lo, hi)
    && forall i: nat | i < Count(d) :: EntryOk(disk, d, depth, hi, i)
  }

  /** What entry `i` leads to stays in its range. */
  ghost predicate EntryOk(disk: Disk, d: seq<byte>, depth: nat, hi: nat, i: nat)
    requires Shape(d) && i < Count(d)
    decreases depth, 0
  {
    if depth == 0 then ExtentAt(d, i).first + ExtentAt(d, i).length <= Next(d, i, hi)
    else Broken(disk, Leaf(d, i)) || Tree(disk, disk[Leaf(d, i)], depth - 1, Key(d, i), Next(d, i, hi))
  }

  /** The extents below entry `i`; there are none in a broken subtree. */
  ghost function Below(disk: Disk, d: seq<byte>, depth: nat, lo: nat, hi: nat, i: nat): seq<Extent>
    requires Tree(disk, d, depth, lo, hi) && i < Count(d)
    decreases depth, 0, 0
  {
    assert EntryOk(disk, d, depth, hi, i);
    if depth == 0 then [ExtentAt(d, i)]
    else if Broken(disk, Leaf(d, i)) then []
    else Flatten(disk, disk[Leaf(d, i)], depth - 1, Key(d, i), Next(d, i, hi), 0)
  }

  /** The extents of the entries from `i` on, left to right. */
  ghost function Flatten(disk: Disk, d: seq<byte>, depth: nat, lo: nat, hi: nat, i: nat): seq<Extent>
    requires Tree(disk, d, depth, lo, hi) && i <= Count(d)
    decreases depth, 1, Count(d) - i
  {
    if i == Count(d) then [] else Below(disk, d, depth, lo, hi, i) + Flatten(disk, d, depth, lo, hi, i + 1)
  }

  /** The block that holds logical block `block` according to a list of extents; 0 for a hole. */
  function Search(s: seq<Extent>, block: nat): nat {
    if s == [] then 0 else if Covers(s[0], block) then Physical(s[0], block) else Search(s[1..], block)
  }

  lemma {:induction false} SearchNone(s: seq<Extent>, block: nat)
    requires forall e | e in s :: !Covers(e, block)
    ensures Search(s, block) == 0
  {
    if s != [] { SearchNone(s[1..], block); }
  }

  /** A part of the list that covers nothing there does not matter. */
  lemma {:induction false} SearchSkip(s: seq<Extent>, t: seq<Extent>, block: nat)
    requires forall e | e in s :: !Covers(e, block)
    ensures Search(s + t, block) == Search(t, block)
  {
    if s == [] {
      assert s + t == t;
    } else {
      assert (s + t)[1..] == s[1..] + t;
      SearchSkip(s[1..], t, block);
    }
  }

  lemma {:induction false} SearchFirst(s: seq<Extent>, t: seq<Extent>, block: nat)
    requires forall e | e in t :: !Covers(e, block)
    ensures Search(s + t, block) == Search(s, block)
  {
    if s == [] {
      assert s + t == t;
      SearchNone(t, block);
    } else {
      assert (s + t)[1..] == s[1..] + t;
      SearchFirst(s[1..], t, block);
    }
  }

  // ---- order ---------------------------------------------------------------------------------------

  lemma {:induction false} KeysOrdered(d: seq<byte>, lo: nat, hi: nat, i: nat, j: nat)
    requires Shape(d) && Ordered(d, lo, hi) && i < j < Count(d)
    ensures lo <= Key(d, i) && Next(d, i, hi) <= Key(d, j) && Key(d, j) < hi
    decreases Count(d) - i
  {
    hide Load16, Load32;
    LowKey(d, lo, hi, i);
    HighKey(d, lo, hi, j);
    if i + 1 < j { KeysOrdered(d, lo, hi, i + 1, j); }
  }

  lemma {:induction false} LowKey(d: seq<byte>, lo: nat, hi: nat, i: nat)
    requires Shape(d) && Ordered(d, lo, hi) && i < Count(d)
    ensures lo <= Key(d, i)
  {
    hide Load16, Load32;
    if i > 0 { LowKey(d, lo, hi, i - 1); }
  }

  lemma {:induction false} HighKey(d: seq<byte>, lo: nat, hi: nat, i: nat)
    requires Shape(d) && Ordered(d, lo, hi) && i < Count(d)
    ensures Next(d, i, hi) <= hi
    decreases Count(d) - i
  {
    hide Load16, Load32;
    if i + 1 < Count(d) { HighKey(d, lo, hi, i + 1); }
  }

  lemma TreeParts(disk: Disk, d: seq<byte>, depth: nat, lo: nat, hi: nat)
    requires Tree(disk, d, depth, lo, hi)
    ensures Shape(d) && Ordered(d, lo, hi) && Depth(d) == depth && Load16(d, 0) == MAGIC
  {
  }

  /** The extents below an entry lie in its range. */
  lemma {:induction false} BelowWithin(disk: Disk, d: seq<byte>, depth: nat, lo: nat, hi: nat, i: nat, e: Extent)
    requires Tree(disk, d, depth, lo, hi) && i < Count(d) && e in Below(disk, d, depth, lo, hi, i)
    ensures Key(d, i) <= e.first && e.first + e.length <= Next(d, i, hi)
    decreases depth, 0, 0
  {
    hide Load16, Load32, Ordered, Flatten, Next, Leaf, Shape;
    assert EntryOk(disk, d, depth, hi, i);
    if depth > 0 {
      var child := disk[Leaf(d, i)];
      TreeParts(disk, child, depth - 1, Key(d, i), Next(d, i, hi));
      Within(disk, child, depth - 1, Key(d, i), Next(d, i, hi), 0, e);
      LowKey(child, Key(d, i), Next(d, i, hi), 0);
    }
  }

  /** The extents from entry `i` on lie between its key and the end of the range. */
  lemma {:induction false} Within(disk: Disk, d: seq<byte>, depth: nat, lo: nat, hi: nat, i: nat, e: Extent)
    requires Tree(disk, d, depth, lo, hi) && i <= Count(d) && e in Flatten(disk, d, depth, lo, hi, i)
    ensures i < Count(d) && Key(d, i) <= e.first && e.first + e.length <= hi
    decreases depth, 1, Count(d) - i
  {
    hide Load16, Load32, Tree, Below, Ordered, Next, Key, Count;
    TreeParts(disk, d, depth, lo, hi);
    HighKey(d, lo, hi, i);
    if e in Below(disk, d, depth, lo, hi, i) {
      BelowWithin(disk, d, depth, lo, hi, i, e);
    } else {
      Within(disk, d, depth, lo, hi, i + 1, e);
      KeysOrdered(d, lo, hi, i, i + 1);
      KeyNext(d, lo, hi, i);
    }
  }

  lemma KeyNext(d: seq<byte>, lo: nat, hi: nat, i: nat)
    requires Shape(d) && Ordered(d, lo, hi) && i < Count(d)
    ensures Key(d, i) < Next(d, i, hi)
  {
  }

  // ---- what the search finds ---------------------------------------------------------------------

  /** Each extent ends before the next one begins. */
  predicate Apart(s: seq<Extent>) {
    forall i, j | 0 <= i < j < |s| :: s[i].first + s[i].length <= s[j].first
  }

  lemma {:induction false} BelowApart(disk: Disk, d: seq<byte>, depth: nat, lo: nat, hi: nat, i: nat)
    requires Tree(disk, d, depth, lo, hi) && i < Count(d)
    ensures Apart(Below(disk, d, depth, lo, hi, i))
    decreases depth, 0, 0
  {
    hide Load16, Load32, Ordered, Flatten, Next, Leaf, Shape;
    assert EntryOk(disk, d, depth, hi, i);
    if depth > 0 && !Broken(disk, Leaf(d, i)) {
      FlattenApart(disk, disk[Leaf(d, i)], depth - 1, Key(d, i), Next(d, i, hi), 0);
    }
  }

  /** The extents of a tree follow each other without overlap. */
  lemma {:induction false} FlattenApart(disk: Disk, d: seq<byte>, depth: nat, lo: nat, hi: nat, i: nat)
    requires Tree(disk, d, depth, lo, hi) && i <= Count(d)
    ensures Apart(Flatten(disk, d, depth, lo, hi, i))
    decreases depth, 1, Count(d) - i
  {
    hide Load16, Load32, Tree, Below, Ordered, Key, Count;
    TreeParts(disk, d, depth, lo, hi);
    if i < Count(d) {
      var part, rest := Below(disk, d, depth, lo, hi, i), Flatten(disk, d, depth, lo, hi, i + 1);
      BelowApart(disk, d, depth, lo, hi, i);
      FlattenApart(disk, d, depth, lo, hi, i + 1);
      forall e, f | e in part && f in rest
        ensures e.first + e.length <= f.first
      {
        BelowWithin(disk, d, depth, lo, hi, i, e);
        Within(disk, d, depth, lo, hi, i + 1, f);
      }
      ApartJoin(part, rest);
    }
  }

  lemma ApartJoin(s: seq<Extent>, t: seq<Extent>)
    requires Apart(s) && Apart(t) && forall e, f | e in s && f in t :: e.first + e.length <= f.first
    ensures Apart(s + t)
  {
    forall i, j | 0 <= i < j < |s + t|
      ensures (s + t)[i].first + (s + t)[i].length <= (s + t)[j].first
    {
      if i < |s| <= j { assert s[i] in s && t[j - |s|] in t; }
    }
  }

  /** Block k of an extent lies k blocks behind its start. */
  lemma {:induction false} SearchBlock(s: seq<Extent>, e: Extent, k: nat)
    requires Apart(s) && e in s && k < e.length
    ensures Search(s, e.first + k) == (e.start + k) % U32
  {
    if s[0] != e {
      assert e in s[1..];
      var i :| 0 < i < |s| && s[i] == e;
      assert s[0].first + s[0].length <= s[i].first;
      SearchBlock(s[1..], e, k);
    }
  }

  /** No two logical blocks of an extent share a physical one. */
  lemma SearchInjective(s: seq<Extent>, e: Extent, j: nat, k: nat)
    requires Apart(s) && e in s && j < k < e.length <= U32
    ensures Search(s, e.first + j) != Search(s, e.first + k)
  {
    SearchBlock(s, e, j);
    SearchBlock(s, e, k);
    ModApart(e.start + j, k - j);
  }

  lemma ModApart(a: nat, d: nat)
    requires 0 < d < U32
    ensures a % U32 != (a + d) % U32
  {
  }

  // ---- one level of the walk ---------------------------------------------------------------------

  /** Entry `i` is the last one that starts at or before `block`. */
  ghost predicate LastBefore(d: seq<byte>, i: nat, block: nat)
    requires Shape(d) && i < Count(d)
  {
    Key(d, i) <= block && forall j: nat | i < j < Count(d) :: block < Key(d, j)
  }

  /** Only the entry before the block matters. */
  lemma {:induction false} SearchFrom(disk: Disk, d: seq<byte>, depth: nat, lo: nat, hi: nat, j: nat, i: nat,
                                      block: nat)
    requires Tree(disk, d, depth, lo, hi) && j <= i < Count(d) && LastBefore(d, i, block)
    ensures Search(Flatten(disk, d, depth, lo, hi, j), block) == Search(Below(disk, d, depth, lo, hi, i), block)
    decreases i - j
  {
    hide Load16, Load32, Tree, Below, Ordered, Next, Key, Count, Search;
    TreeParts(disk, d, depth, lo, hi);
    var rest := Flatten(disk, d, depth, lo, hi, j + 1);
    var part := Below(disk, d, depth, lo, hi, j);
    if j < i {
      forall e | e in part
        ensures !Covers(e, block)
      {
        BelowWithin(disk, d, depth, lo, hi, j, e);
        KeysOrdered(d, lo, hi, j, i);
      }
      SearchSkip(part, rest, block);
      SearchFrom(disk, d, depth, lo, hi, j + 1, i, block);
    } else {
      forall e | e in rest
        ensures !Covers(e, block)
      {
        Within(disk, d, depth, lo, hi, j + 1, e);
      }
      SearchFirst(part, rest, block);
    }
  }

  /** Before the first entry there is nothing. */
  lemma SearchBefore(disk: Disk, d: seq<byte>, depth: nat, lo: nat, hi: nat, block: nat)
    requires Tree(disk, d, depth, lo, hi) && forall j: nat | j < Count(d) :: block < Key(d, j)
    ensures Search(Flatten(disk, d, depth, lo, hi, 0), block) == 0
  {
    hide Load16, Load32, Tree, Search, Flatten;
    forall e | e in Flatten(disk, d, depth, lo, hi, 0)
      ensures !Covers(e, block)
    {
      Within(disk, d, depth, lo, hi, 0, e);
    }
    SearchNone(Flatten(disk, d, depth, lo, hi, 0), block);
  }

  /** A leaf lists its own extents. */
  lemma {:induction false} LeafMember(disk: Disk, d: seq<byte>, lo: nat, hi: nat, i: nat, e: Extent)
    requires Tree(disk, d, 0, lo, hi) && i <= Count(d) && e in Flatten(disk, d, 0, lo, hi, i)
    ensures exists j: nat :: j < Count(d) && e == ExtentAt(d, j)
    decreases Count(d) - i
  {
    hide Load16, Load32, ExtentAt, Tree, Count;
    if e !in Below(disk, d, 0, lo, hi, i) {
      LeafMember(disk, d, lo, hi, i + 1, e);
    }
  }

  lemma LeafRange(disk: Disk, d: seq<byte>, lo: nat, hi: nat, i: nat)
    requires Tree(disk, d, 0, lo, hi) && i < Count(d)
    ensures ExtentAt(d, i).first + ExtentAt(d, i).length <= hi
  {
    hide Load16, Load32, Ordered;
    assert EntryOk(disk, d, 0, hi, i);
    HighKey(d, lo, hi, i);
  }

  lemma LeafNone(disk: Disk, d: seq<byte>, lo: nat, hi: nat, block: nat)
    requires Tree(disk, d, 0, lo, hi) && forall j: nat | j < Count(d) :: !Covers(ExtentAt(d, j), block)
    ensures Search(Flatten(disk, d, 0, lo, hi, 0), block) == 0
  {
    hide Load16, Load32, ExtentAt, Tree, Search, Flatten;
    forall e | e in Flatten(disk, d, 0, lo, hi, 0)
      ensures !Covers(e, block)
    {
      LeafMember(disk, d, lo, hi, 0, e);
    }
    SearchNone(Flatten(disk, d, 0, lo, hi, 0), block);
  }

  lemma LeafFound(disk: Disk, d: seq<byte>, lo: nat, hi: nat, i: nat, block: nat)
    requires Tree(disk, d, 0, lo, hi) && i < Count(d) && Covers(ExtentAt(d, i), block)
    ensures Search(Flatten(disk, d, 0, lo, hi, 0), block) == Physical(ExtentAt(d, i), block)
  {
    hide Load16, Load32, Flatten, Physical;
    assert EntryOk(disk, d, 0, hi, i);
    forall j: nat | i < j < Count(d)
      ensures block < Key(d, j)
    {
      KeysOrdered(d, lo, hi, i, j);
    }
    SearchFrom(disk, d, 0, lo, hi, 0, i, block);
  }

  // ---- the walk --------------------------------------------------------------------------------------

  /** ext4_find_idx. */
  method FindIdx(d: seq<byte>, block: nat) returns (i: int)
    requires Shape(d)
    ensures i == -1 ==> forall j: nat | j < Count(d) :: block < Key(d, j)
    ensures i != -1 ==> 0 <= i < Count(d) && LastBefore(d, i, block)
  {
    hide Load16, Load32;
    i := -1;
    for k := 0 to Count(d)
      invariant -1 <= i < k
      invariant i != -1 ==> Key(d, i) <= block
      invariant forall j: nat | i < j < k :: block < Key(d, j)
    {
      if block >= Key(d, k) {
        i := k;
      }
    }
  }

  /** ext4_find_extent_in_leaf: the last extent that passes the test. */
  method FindExtent(d: seq<byte>, block: nat) returns (i: int)
    requires Shape(d)
    ensures -1 <= i < Count(d) && (i != -1 ==> Hits(ExtentAt(d, i), block))
    ensures forall j: nat | i < j < Count(d) :: !Hits(ExtentAt(d, j), block)
  {
    hide Load16, Load32;
    i := -1;
    for k := 0 to Count(d)
      invariant -1 <= i < k
      invariant i != -1 ==> Hits(ExtentAt(d, i), block)
      invariant forall j: nat | i < j < k :: !Hits(ExtentAt(d, j), block)
    {
      if block >= ExtentAt(d, k).first {
        if block < (ExtentAt(d, k).first + ExtentAt(d, k).length) % U32 {
          i := k;
        }
      }
    }
  }

  /** ext4_extent_get_block: the walk finds what a search of all extents finds. */
  method ExtentGetBlock(dev: Device, root: seq<byte>, ghost hi: nat, block: nat) returns (p: nat)
    requires dev.Valid() && Shape(root) && hi < U32
    requires Load16(root, 0) == MAGIC ==> Tree(dev.disk, root, Depth(root), 0, hi)
    modifies dev`entries, dev`counter
    ensures dev.Valid()
    ensures Load16(root, 0) != MAGIC ==> p == 0
    ensures Load16(root, 0) == MAGIC ==> p == Search(Flatten(dev.disk, root, Depth(root), 0, hi, 0), block)
    ensures Load16(root, 0) == MAGIC ==> forall e | e in Flatten(dev.disk, root, Depth(root), 0, hi, 0) ::
              e.first <= block < e.first + e.length ==> p == (e.start + (block - e.first)) % U32
    ensures Load16(root, 0) == MAGIC && p != 0 ==>
              exists e :: e in Flatten(dev.disk, root, Depth(root), 0, hi, 0) && e.first <= block < e.first + e.length
  {
    hide Coherent, Load16, Load32, Tree, Flatten, Search, Below, LastBefore, Key, Next, Ordered;
    if Load16(root, 0) != MAGIC {
      return 0;
    }
    ghost var disk := dev.disk;
    ghost var found := Search(Flatten(disk, root, Depth(root), 0, hi, 0), block);
    ghost var lo: nat, end: nat := 0, hi;
    var d := root;
    TreeParts(disk, root, Depth(root), 0, hi);
    FoundMeans(disk, root, Depth(root), hi, block);
    while Depth(d) > 0
      invariant dev.Valid() && Shape(d) && end <= hi && Tree(disk, d, Depth(d), lo, end)
      invariant Search(Flatten(disk, d, Depth(d), lo, end, 0), block) == found
      decreases Depth(d)
    {
      var i := FindIdx(d, block);
      if i == -1 {
        SearchBefore(disk, d, Depth(d), lo, end, block);
        return 0;
      }
      SearchFrom(disk, d, Depth(d), lo, end, 0, i, block);
      var ok, buffer := dev.Read(Leaf(d, i));
      if Broken(disk, Leaf(d, i)) {
        BrokenChild(disk, d, Depth(d), lo, end, i, block);
      } else {
        ChildTree(disk, d, Depth(d), lo, end, i, buffer, Key(d, i), Next(d, i, end));
      }
      if !ok {
        return 0;
      }
      if Load16(buffer, 0) != MAGIC {
        return 0;
      }
      lo, end := Key(d, i), Next(d, i, end);
      d := buffer;
    }
    forall j: nat | j < Count(d)
      ensures Hits(ExtentAt(d, j), block) <==> Covers(ExtentAt(d, j), block)
    {
      LeafRange(disk, d, lo, end, j);
    }
    var i := FindExtent(d, block);
    if i == -1 {
      LeafNone(disk, d, lo, end, block);
      return 0;
    }
    LeafFound(disk, d, lo, end, i, block);
    p := Physical(ExtentAt(d, i), block);
  }

  /** What the search of a tree finds, in terms of the extents alone. */
  lemma FoundMeans(disk: Disk, d: seq<byte>, depth: nat, hi: nat, block: nat)
    requires Tree(disk, d, depth, 0, hi)
    ensures var s := Flatten(disk, d, depth, 0, hi, 0);
            && (forall e | e in s :: e.first <= block < e.first + e.length ==>
                  Search(s, block) == (e.start + (block - e.first)) % U32)
            && (Search(s, block) != 0 ==> exists e :: e in s && e.first <= block < e.first + e.length)
  {
    hide Tree, Flatten, Search;
    var s := Flatten(disk, d, depth, 0, hi, 0);
    FlattenApart(disk, d, depth, 0, hi, 0);
    forall e | e in s && e.first <= block < e.first + e.length
      ensures Search(s, block) == (e.start + (block - e.first)) % U32
    {
      SearchBlock(s, e, block - e.first);
    }
    if forall e | e in s :: !Covers(e, block) { SearchNone(s, block); }
  }

  /** A node that cannot be read, or does not start with the bytes 0A F3, costs the tree nothing but its extents. */
  lemma BadNode(disk: Disk, d: seq<byte>, depth: nat, lo: nat, hi: nat, i: nat)
    requires depth > 0 && Shape(d) && i < Count(d)
    requires var b := Leaf(d, i); b < |disk| ==> |disk[b]| >= 12 && (disk[b][0] != 0x0A || disk[b][1] != 0xF3)
    ensures EntryOk(disk, d, depth, hi, i)
    ensures Tree(disk, d, depth, lo, hi) ==> Below(disk, d, depth, lo, hi, i) == []
  {
    hide Ordered, Tree, Leaf;
  }

  lemma BrokenChild(disk: Disk, d: seq<byte>, depth: nat, lo: nat, hi: nat, i: nat, block: nat)
    requires depth > 0 && Shape(d) && i < Count(d) && Tree(disk, d, depth, lo, hi) && Broken(disk, Leaf(d, i))
    ensures Search(Below(disk, d, depth, lo, hi, i), block) == 0
  {
    hide Load16, Load32, Ordered, Tree;
  }

  lemma ChildTree(disk: Disk, d: seq<byte>, depth: nat, lo: nat, hi: nat, i: nat, child: seq<byte>, key: nat, next: nat)
    requires depth > 0 && Shape(d) && i < Count(d) && Leaf(d, i) < |disk| && child == disk[Leaf(d, i)]
    requires key == Key(d, i) && next == Next(d, i, hi) && !Broken(disk, Leaf(d, i))
    requires Tree(disk, d, depth, lo, hi)
    ensures next <= hi && Tree(disk, child, depth - 1, key, next)
    ensures Shape(child) && Depth(child) == depth - 1 && Load16(child, 0) == MAGIC
    ensures Below(disk, d, depth, lo, hi, i) == Flatten(disk, child, depth - 1, key, next, 0)
  {
    hide Load16, Load32, Ordered;
    assert EntryOk(disk, d, depth, hi, i);
    HighKey(d, lo, hi, i);
  }
}
