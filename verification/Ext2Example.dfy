/** The smallest file system the ext2 model describes: one group of eight blocks, three of them in use. */
module Ext2Example {
  import opened Bytes
  import opened Ext2Bitmap
  import opened Ext2Disk
  import opened Ext2File
  import opened Ext2Fs
  import opened Ext2Map

  const SIZE: nat := 1024

  function Layout(): Geometry {
    Geometry(8, 0, [1])
  }

  /** Blocks 0, 1 and 2 are used: boot block, bitmap, inode table. */
  function Bitmap(): (d: seq<byte>)
    ensures |d| == SIZE && d[0] == 7
  {
    Zeros(SIZE)[0 := 7]
  }

  function Fresh(): Disk {
    [Zeros(SIZE), Bitmap(), Zeros(SIZE), Zeros(SIZE), Zeros(SIZE), Zeros(SIZE), Zeros(SIZE), Zeros(SIZE)]
  }

  lemma Bits(i: nat)
    requires i < 8
    ensures BitAt(Bitmap(), i) <==> i < 3
  {
    assert TestBit(7, 1) == TestBit(3, 0) && TestBit(7, 2) == TestBit(3, 1) == TestBit(1, 0);
    if i >= 3 {
      assert TestBit(7, i) == TestBit(3, i - 1) == TestBit(1, i - 2) == TestBit(0, i - 3);
      NoBits(i - 3);
    }
  }

  lemma {:induction false} FiveFree(n: nat)
    requires n <= 8
    ensures ClearCount(Bitmap(), n) == if n < 3 then 0 else n - 3
  {
    hide BitAt, Bitmap;
    if n > 0 {
      Bits(n - 1);
      FiveFree(n - 1);
    }
  }

  lemma FreshConsistent()
    ensures Consistent(Layout(), SIZE, Fresh(), [5], 5)
  {
    hide BitAt, Bitmap, ClearCount;
    FiveFree(8);
    assert Sum([5]) == 5 by { assert [5][..0] == []; }
    forall b: nat | InGroups(Layout(), b)
      ensures InUse(Layout(), Fresh(), b) <==> b < 3
    {
      assert Group(Layout(), b) == 0 && Index(Layout(), b) == b;
      Bits(b);
    }
  }

  /** A file without blocks is sound. */
  lemma EmptySound(slots: seq<nat>)
    requires |slots| == SLOTS && forall i | 0 <= i < SLOTS :: slots[i] == 0
    requires Ready(Layout(), SIZE, Fresh(), slots)
    ensures Sound(Layout(), SIZE, Fresh(), slots)
  {
    hide Laid, InUse, Fresh, Path;
    forall i: nat
      ensures MapBlock(Fresh(), SIZE, slots, i) == 0 && Consulted(Fresh(), SIZE, slots, i) == {}
    {
      FollowZero(Fresh(), SIZE, Path(SIZE / 4, i)[1..]);
    }
  }

  /** The invariants of the model can be met, and a file written on a fresh disk reads back. */
  method Example(data: seq<byte>) returns (n: nat, out: seq<byte>)
    requires |data| < U32
    ensures n <= |data| && out == data[..n]
  {
    hide Counted, Safe, Sound, Laid, Fresh;
    FreshConsistent();
    var dev := new Device(Fresh());
    var fs := new FileSystem(Layout(), SIZE, dev, [5], 5);
    var slots: seq<nat> := seq(SLOTS, _ => 0);
    EmptySound(slots);
    var inode := new Inode(slots, true, 0, 0, 0);
    n, out := fs.WriteThenRead(inode, 0, data);
  }
}
