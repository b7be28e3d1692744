/** Block bitmaps and the block allocator of kernel/ext2.c. */
module Ext2Bitmap {
  import opened Arith
  import opened Bytes
  import opened Ext2Disk

  // ---- bitmaps ---------------------------------------------------------------------------

  predicate BitAt(d: seq<byte>, i: nat)
    requires i / 8 < |d|
  {
    TestBit(d[i / 8], i % 8)
  }

  /** Bit b of byte j, counted from the low end, is bit 8 j + b of a bitmap. */
  lemma BitPlace(d: seq<byte>, j: nat, b: nat)
    requires j < |d| && b < 8
    ensures BitAt(d, 8 * j + b) <==> d[j] / Pow2(b) % 2 == 1
  {
    hide TestBit;
    BitValue(d[j], b);
  }

  lemma ByteBits(x: byte, i: nat)
    requires i < 8
    ensures SetBit(x, i) < 0x100 && ClearBit(x, i) < 0x100
  {
    assert Pow2(8) == 0x100;
    BitBound(x, i, 8);
  }

  function WithBit(d: seq<byte>, i: nat): (r: seq<byte>)
    requires i / 8 < |d|
    ensures |r| == |d|
  {
    ByteBits(d[i / 8], i % 8);
    d[i / 8 := SetBit(d[i / 8], i % 8)]
  }

  function WithoutBit(d: seq<byte>, i: nat): (r: seq<byte>)
    requires i / 8 < |d|
    ensures |r| == |d|
  {
    ByteBits(d[i / 8], i % 8);
    d[i / 8 := ClearBit(d[i / 8], i % 8)]
  }

  lemma WithBitAt(d: seq<byte>, i: nat, j: nat)
    requires i / 8 < |d| && j / 8 < |d|
    ensures BitAt(WithBit(d, i), j) <==> i == j || BitAt(d, j)
    ensures BitAt(WithoutBit(d, i), j) <==> i != j && BitAt(d, j)
  {
    hide TestBit, SetBit, ClearBit;
    assert i == j <==> i / 8 == j / 8 && i % 8 == j % 8;
    SetBitTest(d[i / 8], i % 8, j % 8);
    ClearBitTest(d[i / 8], i % 8, j % 8);
  }

  lemma WithoutWith(d: seq<byte>, i: nat)
    requires i / 8 < |d| && !BitAt(d, i)
    ensures WithoutBit(WithBit(d, i), i) == d
  {
    ClearSet(d[i / 8], i % 8);
  }

  /** The number of clear bits among the first n. */
  function ClearCount(d: seq<byte>, n: nat): nat
    requires n <= 8 * |d|
  {
    if n == 0 then 0 else ClearCount(d, n - 1) + if BitAt(d, n - 1) then 0 else 1
  }

  lemma {:induction false} CountSame(d: seq<byte>, d': seq<byte>, n: nat)
    requires |d| == |d'| && n <= 8 * |d| && forall j: nat | j < n :: BitAt(d, j) == BitAt(d', j)
    ensures ClearCount(d, n) == ClearCount(d', n)
  {
    if n > 0 { CountSame(d, d', n - 1); }
  }

  /** Taking a clear bit lowers the count by one. */
  lemma {:induction false} CountSet(d: seq<byte>, n: nat, i: nat)
    requires n <= 8 * |d| && i < n && !BitAt(d, i)
    ensures ClearCount(WithBit(d, i), n) == ClearCount(d, n) - 1
  {
    hide BitAt, WithBit;
    WithBitAt(d, i, n - 1);
    if i == n - 1 {
      forall j: nat | j < i ensures BitAt(WithBit(d, i), j) == BitAt(d, j) { WithBitAt(d, i, j); }
      CountSame(WithBit(d, i), d, n - 1);
    } else {
      CountSet(d, n - 1, i);
    }
  }

  /** Giving a set bit back raises it by one. */
  lemma {:induction false} CountClear(d: seq<byte>, n: nat, i: nat)
    requires n <= 8 * |d| && i < n && BitAt(d, i)
    ensures ClearCount(WithoutBit(d, i), n) == ClearCount(d, n) + 1
  {
    hide BitAt, WithoutBit;
    WithBitAt(d, i, n - 1);
    if i == n - 1 {
      forall j: nat | j < i ensures BitAt(WithoutBit(d, i), j) == BitAt(d, j) { WithBitAt(d, i, j); }
      CountSame(WithoutBit(d, i), d, n - 1);
    } else {
      CountClear(d, n - 1, i);
    }
  }

  lemma {:induction false} CountZero(d: seq<byte>, n: nat)
    requires n <= 8 * |d| && forall j: nat | j < n :: BitAt(d, j)
    ensures ClearCount(d, n) == 0
  {
    if n > 0 { CountZero(d, n - 1); }
  }

  /** The search loops of ext2_alloc_block: the first clear bit, skipping bytes that are 0xFF. */
  method FindClear(d: seq<byte>, n: nat) returns (i: int)
    requires n % 8 == 0 && n <= 8 * |d|
    ensures -1 <= i < n
    ensures i != -1 ==> !BitAt(d, i) && forall j: nat | j < i :: BitAt(d, j)
    ensures i == -1 <==> ClearCount(d, n) == 0
  {
    hide TestBit, BitAt;
    for b := 0 to n / 8
      invariant forall j: nat | j < 8 * b :: BitAt(d, j)
    {
      if d[b] != 0xFF {
        for bit := 0 to 8
          invariant forall j: nat | j < 8 * b + bit :: BitAt(d, j)
        {
          BitInByte(d, b, bit);
          if !TestBit(d[b], bit) {
            i := 8 * b + bit;
            SomeClear(d, n, i);
            return;
          }
        }
      } else {
        FullByte(d, b);
      }
    }
    CountZero(d, n);
    i := -1;
  }

  lemma BitInByte(d: seq<byte>, b: nat, bit: nat)
    requires b < |d| && bit < 8
    ensures BitAt(d, 8 * b + bit) == TestBit(d[b], bit)
  {
    assert (8 * b + bit) / 8 == b && (8 * b + bit) % 8 == bit;
  }

  lemma FullByte(d: seq<byte>, b: nat)
    requires b < |d| && d[b] == 0xFF
    ensures forall j: nat | 8 * b <= j < 8 * b + 8 :: BitAt(d, j)
  {
    assert Pow2(8) == 0x100;
    forall j: nat | 8 * b <= j < 8 * b + 8
      ensures BitAt(d, j)
    {
      OnesTest(d[b], 8, j - 8 * b);
      BitInByte(d, b, j - 8 * b);
    }
  }

  lemma {:induction false} SomeClear(d: seq<byte>, n: nat, i: nat)
    requires n <= 8 * |d| && i < n && !BitAt(d, i)
    ensures ClearCount(d, n) > 0
  {
    if i < n - 1 { SomeClear(d, n - 1, i); }
  }

  // ---- block numbers ------------------------------------------------------------------------

  /** Blocks per group, the first data block, and the block holding each group's bitmap. */
  datatype Geometry = Geometry(blocksPerGroup: nat, firstData: nat, bitmaps: seq<nat>)

  /** The layout mkfs leaves: whole bytes of bitmap, each bitmap in a block of its own, 32-bit block numbers. */
  ghost predicate Laid(geo: Geometry, disk: Disk) {
    && geo.blocksPerGroup > 0 && geo.blocksPerGroup % 8 == 0
    && geo.firstData + |geo.bitmaps| * geo.blocksPerGroup <= U32
    && (forall g | 0 <= g < |geo.bitmaps| ::
          geo.bitmaps[g] < |disk| && geo.blocksPerGroup <= 8 * |disk[geo.bitmaps[g]]|)
    && (forall g, h | 0 <= g < h < |geo.bitmaps| :: geo.bitmaps[g] != geo.bitmaps[h])
  }

  function Group(geo: Geometry, b: nat): nat
    requires geo.blocksPerGroup > 0 && geo.firstData <= b
  {
    (b - geo.firstData) / geo.blocksPerGroup
  }

  function Index(geo: Geometry, b: nat): nat
    requires geo.blocksPerGroup > 0 && geo.firstData <= b
  {
    (b - geo.firstData) % geo.blocksPerGroup
  }

  function BlockNo(geo: Geometry, g: nat, i: nat): nat {
    Join(g, i, geo.blocksPerGroup) + geo.firstData
  }

  predicate InGroups(geo: Geometry, b: nat) {
    geo.blocksPerGroup > 0 && geo.firstData <= b && Group(geo, b) < |geo.bitmaps|
  }

  ghost predicate InUse(geo: Geometry, disk: Disk, b: nat)
    requires Laid(geo, disk)
  {
    InGroups(geo, b) && BitAt(disk[geo.bitmaps[Group(geo, b)]], Index(geo, b))
  }

  /** The disk with block `b` marked used, and marked free. */
  ghost function Marked(geo: Geometry, disk: Disk, b: nat): Disk
    requires Laid(geo, disk) && InGroups(geo, b)
  {
    var m := geo.bitmaps[Group(geo, b)];
    disk[m := WithBit(disk[m], Index(geo, b))]
  }

  ghost function Unmarked(geo: Geometry, disk: Disk, b: nat): Disk
    requires Laid(geo, disk) && InGroups(geo, b)
  {
    var m := geo.bitmaps[Group(geo, b)];
    disk[m := WithoutBit(disk[m], Index(geo, b))]
  }

  /** Group and index take a block number apart; the formula of ext2_alloc_block puts it together. */
  lemma BlockNoInverse(geo: Geometry, g: nat, i: nat)
    requires i < geo.blocksPerGroup
    ensures Group(geo, BlockNo(geo, g, i)) == g && Index(geo, BlockNo(geo, g, i)) == i
  {
    JoinParts(g, i, geo.blocksPerGroup);
  }

  /** The groups follow one another: block numbers count up through each bitmap and on into the next. */
  lemma BlockOrder(geo: Geometry, g: nat, i: nat)
    requires geo.blocksPerGroup > 0
    ensures BlockNo(geo, 0, 0) == geo.firstData && BlockNo(geo, g, i + 1) == BlockNo(geo, g, i) + 1
    ensures BlockNo(geo, g + 1, 0) == BlockNo(geo, g, geo.blocksPerGroup - 1) + 1
  {
    assert (g + 1) * geo.blocksPerGroup == g * geo.blocksPerGroup + geo.blocksPerGroup;
  }

  lemma BlockNoBack(geo: Geometry, b: nat)
    requires InGroups(geo, b)
    ensures BlockNo(geo, Group(geo, b), Index(geo, b)) == b && Index(geo, b) < geo.blocksPerGroup
  {
  }

  /** Marking changes the state of one block and of no other. */
  lemma MarkedUse(geo: Geometry, disk: Disk, b: nat, c: nat)
    requires Laid(geo, disk) && InGroups(geo, b)
    ensures Laid(geo, Marked(geo, disk, b)) && Laid(geo, Unmarked(geo, disk, b))
    ensures InUse(geo, Marked(geo, disk, b), c) <==> c == b || InUse(geo, disk, c)
    ensures InUse(geo, Unmarked(geo, disk, b), c) <==> c != b && InUse(geo, disk, c)
  {
    hide BitAt, WithBit, WithoutBit, Group, Index, BlockNo;
    MarkedLaid(geo, disk, b);
    BlockNoBack(geo, b);
    if InGroups(geo, c) {
      BlockNoBack(geo, c);
      if Group(geo, b) == Group(geo, c) {
        assert Index(geo, b) == Index(geo, c) <==> b == c;
        WithBitAt(disk[geo.bitmaps[Group(geo, b)]], Index(geo, b), Index(geo, c));
      } else {
        assert geo.bitmaps[Group(geo, b)] != geo.bitmaps[Group(geo, c)];
      }
    }
  }

  lemma MarkedLaid(geo: Geometry, disk: Disk, b: nat)
    requires Laid(geo, disk) && InGroups(geo, b)
    ensures Laid(geo, Marked(geo, disk, b)) && Laid(geo, Unmarked(geo, disk, b))
  {
    hide BitAt;
  }

  // ---- counters -----------------------------------------------------------------------------

  function Sum(s: seq<nat>): nat {
    if s == [] then 0 else Sum(s[..|s| - 1]) + s[|s| - 1]
  }

  lemma {:induction false} SumUpdate(s: seq<nat>, g: nat, x: nat)
    requires g < |s|
    ensures Sum(s[g := x]) == Sum(s) - s[g] + x
  {
    if g == |s| - 1 {
      assert s[g := x][..|s| - 1] == s[..|s| - 1];
    } else {
      SumUpdate(s[..|s| - 1], g, x);
      assert s[g := x][..|s| - 1] == s[..|s| - 1][g := x];
    }
  }

  lemma {:induction false} SumZero(s: seq<nat>)
    ensures Sum(s) == 0 <==> forall g | 0 <= g < |s| :: s[g] == 0
  {
    if s != [] { SumZero(s[..|s| - 1]); }
  }

  /** Each group counter is the number of clear bits of its bitmap, and the superblock counter is their sum. */
  ghost predicate Counted(geo: Geometry, disk: Disk, groupFree: seq<nat>, free: nat)
    requires Laid(geo, disk)
  {
    && |groupFree| == |geo.bitmaps|
    && (forall g | 0 <= g < |groupFree| :: groupFree[g] == ClearCount(disk[geo.bitmaps[g]], geo.blocksPerGroup))
    && free == Sum(groupFree)
  }

  /** Free blocks lie on the device; block 0 and the bitmaps themselves are in use. */
  ghost predicate Safe(geo: Geometry, disk: Disk)
    requires Laid(geo, disk)
  {
    && (forall b: nat | InGroups(geo, b) && !InUse(geo, disk, b) :: 0 < b < |disk|)
    && (forall g | 0 <= g < |geo.bitmaps| :: InUse(geo, disk, geo.bitmaps[g]))
  }

  lemma MarkedCounted(geo: Geometry, disk: Disk, groupFree: seq<nat>, free: nat, b: nat)
    requires Laid(geo, disk) && Counted(geo, disk, groupFree, free) && InGroups(geo, b) && !InUse(geo, disk, b)
    ensures groupFree[Group(geo, b)] > 0 && free > 0 && Laid(geo, Marked(geo, disk, b))
    ensures Counted(geo, Marked(geo, disk, b),
                    groupFree[Group(geo, b) := groupFree[Group(geo, b)] - 1], free - 1)
  {
    hide BitAt, WithBit, Index, Group, BlockNo, ClearCount, Sum;
    var g := Group(geo, b);
    BlockNoBack(geo, b);
    MarkedLaid(geo, disk, b);
    CountSet(disk[geo.bitmaps[g]], geo.blocksPerGroup, Index(geo, b));
    SumUpdate(groupFree, g, groupFree[g] - 1);
    SumAtLeast(groupFree, g);
  }

  lemma MarkedSafe(geo: Geometry, disk: Disk, b: nat)
    requires Laid(geo, disk) && Safe(geo, disk) && InGroups(geo, b)
    ensures Laid(geo, Marked(geo, disk, b)) && Safe(geo, Marked(geo, disk, b))
  {
    hide InUse, Marked, InGroups, Laid;
    MarkedLaid(geo, disk, b);
    forall c: nat
      ensures InUse(geo, Marked(geo, disk, b), c) <==> c == b || InUse(geo, disk, c)
    {
      MarkedUse(geo, disk, b, c);
    }
    MarkedSize(geo, disk, b);
  }

  lemma MarkedSize(geo: Geometry, disk: Disk, b: nat)
    requires Laid(geo, disk) && InGroups(geo, b)
    ensures |Marked(geo, disk, b)| == |disk| && |Unmarked(geo, disk, b)| == |disk|
  {
  }

  lemma {:induction false} SumAtLeast(s: seq<nat>, g: nat)
    requires g < |s|
    ensures Sum(s) >= s[g]
  {
    if g < |s| - 1 { SumAtLeast(s[..|s| - 1], g); }
  }

  lemma UnmarkedCounted(geo: Geometry, disk: Disk, groupFree: seq<nat>, free: nat, b: nat)
    requires Laid(geo, disk) && Counted(geo, disk, groupFree, free) && InGroups(geo, b) && InUse(geo, disk, b)
    ensures Laid(geo, Unmarked(geo, disk, b))
    ensures Counted(geo, Unmarked(geo, disk, b),
                    groupFree[Group(geo, b) := groupFree[Group(geo, b)] + 1], free + 1)
  {
    hide BitAt, WithoutBit, Index, Group, BlockNo, ClearCount, Sum;
    var g := Group(geo, b);
    BlockNoBack(geo, b);
    MarkedLaid(geo, disk, b);
    CountClear(disk[geo.bitmaps[g]], geo.blocksPerGroup, Index(geo, b));
    SumUpdate(groupFree, g, groupFree[g] + 1);
  }

  lemma UnmarkedSafe(geo: Geometry, disk: Disk, b: nat)
    requires Laid(geo, disk) && Safe(geo, disk) && InGroups(geo, b) && 0 < b < |disk| && b !in geo.bitmaps
    ensures Laid(geo, Unmarked(geo, disk, b)) && Safe(geo, Unmarked(geo, disk, b))
  {
    hide InUse, Unmarked, InGroups, Laid;
    MarkedLaid(geo, disk, b);
    forall c: nat
      ensures InUse(geo, Unmarked(geo, disk, b), c) <==> c != b && InUse(geo, disk, c)
    {
      MarkedUse(geo, disk, b, c);
    }
    MarkedSize(geo, disk, b);
  }
}
