/**
 The block map of an ext2 inode: twelve direct pointers, then a single, a
 double and a triple indirect tree (kernel/ext2.c).
 */
module Ext2Map {
  import opened Arith
  import opened Bytes
  import opened Ext2Disk

  const DIRECT: nat := 12
  const SLOTS: nat := 15

  predicate BlockSize(bs: nat) {
    bs == 1024 || bs == 2048 || bs == 4096
  }

  predicate Sized(disk: Disk, bs: nat) {
    BlockSize(bs) && forall b | 0 <= b < |disk| :: |disk[b]| == bs
  }

  // ---- addresses ---------------------------------------------------------------------------

  function Square(n: nat): (r: nat)
    ensures n > 0 ==> r > 0
  {
    n * n
  }

  /** The inode slot, then the index to take in each indirect block; `n` pointers fit in a block. */
  function Path(n: nat, index: nat): (path: seq<nat>)
    requires n > 0
    ensures 0 < |path| && path[0] < SLOTS
  {
    if index < DIRECT then [index]
    else
      var i := index - DIRECT;
      if i < n then [12, i]
      else
        var j := i - n;
        if j < Square(n) then [13, j / n, j % n]
        else
          Triple(n, Square(n), j - Square(n))
  }

  function Triple(n: nat, square: nat, k: nat): seq<nat>
    requires n > 0 && square > 0
  {
    [14, k / square, k % square / n, k % square % n]
  }

  /** The paths of the tree: one index per level, each within its block. */
  predicate IsPath(n: nat, path: seq<nat>) {
    && 0 < |path| && path[0] < SLOTS
    && |path| == (if path[0] < DIRECT then 1 else path[0] - 10)
    && forall i | 1 <= i < |path| :: path[i] < n
  }

  /** The block index a path leads to. */
  function AddressOf(n: nat, path: seq<nat>): nat
    requires IsPath(n, path)
  {
    if path[0] < DIRECT then path[0]
    else if path[0] == 12 then DIRECT + path[1]
    else if path[0] == 13 then DIRECT + n + Join(path[1], path[2], n)
    else DIRECT + n + Square(n) + Join(path[1], Join(path[2], path[3], n), Square(n))
  }

  function Capacity(n: nat): nat {
    DIRECT + n + Square(n) + n * Square(n)
  }

  /** Every index inside the capacity has a path, and the path leads back to it. */
  lemma PathAddress(n: nat, index: nat)
    requires n > 0 && index < Capacity(n)
    ensures IsPath(n, Path(n, index)) && AddressOf(n, Path(n, index)) == index
  {
    hide Join, Square;
    assert Square(n) == n * n by { SquareIs(n); }
    if index >= DIRECT + n {
      var j := index - DIRECT - n;
      if j < Square(n) {
        QuotientBelow(j, n, n);
        PartsJoin(j, n);
      } else {
        var k := j - Square(n);
        QuotientBelow(k, Square(n), n);
        PartsJoin(k, Square(n));
        QuotientBelow(k % Square(n), n, n);
        PartsJoin(k % Square(n), n);
      }
    }
  }

  lemma SquareIs(n: nat)
    ensures Square(n) == n * n
  {
  }

  /** Every path of the tree is the path of exactly one index. */
  lemma AddressPath(n: nat, path: seq<nat>)
    requires n > 0 && IsPath(n, path)
    ensures AddressOf(n, path) < Capacity(n) && Path(n, AddressOf(n, path)) == path
  {
    hide Join, Square;
    SquareIs(n);
    if path[0] == 13 {
      var j := Join(path[1], path[2], n);
      JoinParts(path[1], path[2], n);
      QuotientBelow(j, n, n);
    } else if path[0] == 14 {
      var low := Join(path[2], path[3], n);
      JoinParts(path[2], path[3], n);
      QuotientBelow(low, n, n);
      JoinParts(path[1], low, Square(n));
      QuotientBelow(Join(path[1], low, Square(n)), Square(n), n);
    }
  }

  // ---- the walk ------------------------------------------------------------------------------

  function Pointer(disk: Disk, bs: nat, block: nat, index: nat): nat
    requires Sized(disk, bs)
  {
    if block == 0 || block >= |disk| || index >= bs / 4 then 0 else Load32(disk[block], 4 * index)
  }

  function Follow(disk: Disk, bs: nat, block: nat, path: seq<nat>): nat
    requires Sized(disk, bs)
    decreases |path|
  {
    if path == [] then block else Follow(disk, bs, Pointer(disk, bs, block, path[0]), path[1..])
  }

  /** The indirect blocks read on the way. */
  function Visited(disk: Disk, bs: nat, block: nat, path: seq<nat>): set<nat>
    requires Sized(disk, bs)
    decreases |path|
  {
    if path == [] || block == 0 then {} else {block} + Visited(disk, bs, Pointer(disk, bs, block, path[0]), path[1..])
  }

  /** The block that holds block `index` of the file, 0 for a hole. */
  function MapBlock(disk: Disk, bs: nat, slots: seq<nat>, index: nat): nat
    requires Sized(disk, bs) && |slots| == SLOTS
  {
    var path := Path(bs / 4, index);
    Follow(disk, bs, slots[path[0]], path[1..])
  }

  function Consulted(disk: Disk, bs: nat, slots: seq<nat>, index: nat): set<nat>
    requires Sized(disk, bs) && |slots| == SLOTS
  {
    var path := Path(bs / 4, index);
    Visited(disk, bs, slots[path[0]], path[1..])
  }

  lemma {:induction false} FollowZero(disk: Disk, bs: nat, path: seq<nat>)
    requires Sized(disk, bs)
    ensures Follow(disk, bs, 0, path) == 0
    decreases |path|
  {
    if path != [] { FollowZero(disk, bs, path[1..]); }
  }

  /** Walks of one, two and three levels. */
  lemma FollowOne(disk: Disk, bs: nat, block: nat, path: seq<nat>)
    requires Sized(disk, bs) && |path| == 1
    ensures Follow(disk, bs, block, path) == Pointer(disk, bs, block, path[0])
  {
    assert path[1..] == [];
  }

  lemma FollowTwo(disk: Disk, bs: nat, block: nat, path: seq<nat>)
    requires Sized(disk, bs) && |path| == 2
    ensures Follow(disk, bs, block, path) == Pointer(disk, bs, Pointer(disk, bs, block, path[0]), path[1])
  {
    hide Pointer;
    FollowOne(disk, bs, Pointer(disk, bs, block, path[0]), path[1..]);
  }

  lemma FollowThree(disk: Disk, bs: nat, block: nat, path: seq<nat>)
    requires Sized(disk, bs) && |path| == 3
    ensures Follow(disk, bs, block, path)
            == Pointer(disk, bs, Pointer(disk, bs, Pointer(disk, bs, block, path[0]), path[1]), path[2])
  {
    hide Pointer;
    FollowTwo(disk, bs, Pointer(disk, bs, block, path[0]), path[1..]);
  }

  /** The map, case by case. */
  lemma MapCases(disk: Disk, bs: nat, slots: seq<nat>, index: nat)
    requires Sized(disk, bs) && |slots| == SLOTS && index >= DIRECT
    ensures var n := bs / 4; var i := index - DIRECT; var j := i - n; var k := j - Square(n);
            MapBlock(disk, bs, slots, index) ==
            if i < n then Pointer(disk, bs, slots[12], i)
            else if j < Square(n) then Pointer(disk, bs, Pointer(disk, bs, slots[13], j / n), j % n)
            else
              Pointer(disk, bs, Pointer(disk, bs, Pointer(disk, bs, slots[14], k / Square(n)), k % Square(n) / n),
                      k % Square(n) % n)
  {
    hide Pointer, Square, Follow;
    var path := Path(bs / 4, index);
    var block := slots[path[0]];
    if |path| == 2 {
      FollowOne(disk, bs, block, path[1..]);
    } else if |path| == 3 {
      FollowTwo(disk, bs, block, path[1..]);
    } else {
      FollowThree(disk, bs, block, path[1..]);
    }
  }

  // ---- the map in terms of the words on the disk ------------------------------------------------

  /** Word `i` of block `b` of the disk is `w`, little-endian. */
  predicate WordAt(disk: Disk, b: nat, i: nat, w: u32) {
    0 < b < |disk| && 4 * i + 4 <= |disk[b]| && disk[b][4 * i..4 * i + 4] == Bytes32(w)
  }

  lemma PointerWord(disk: Disk, bs: nat, b: nat, i: nat, w: u32)
    requires Sized(disk, bs) && WordAt(disk, b, i, w)
    ensures Pointer(disk, bs, b, i) == w
  {
    LoadSlice(disk[b], 4 * i, Bytes32(w));
  }

  /** A pointer stored in an indirect block is the one read from that place, and the others stay. */
  lemma PointerStored(disk: Disk, bs: nat, b: nat, i: nat, j: nat, w: u32)
    requires Sized(disk, bs) && 0 < b < |disk| && i < bs / 4
    ensures var disk' := disk[b := Store(disk[b], 4 * i, Bytes32(w))];
            Sized(disk', bs) && Pointer(disk', bs, b, i) == w
            && (j != i ==> Pointer(disk', bs, b, j) == Pointer(disk, bs, b, j))
  {
    var d := Store(disk[b], 4 * i, Bytes32(w));
    assert d[4 * i..4 * i + 4] == Bytes32(w);
    PointerWord(disk[b := d], bs, b, i, w);
  }

  /** Word `i` of the block of slot 12 is block 12 + i of the file. */
  lemma MapSingle(disk: Disk, bs: nat, slots: seq<nat>, i: nat, w: u32)
    requires Sized(disk, bs) && |slots| == SLOTS && i < bs / 4 && WordAt(disk, slots[12], i, w)
    ensures MapBlock(disk, bs, slots, DIRECT + i) == w
  {
    hide Pointer, Square, MapBlock;
    MapCases(disk, bs, slots, DIRECT + i);
    PointerWord(disk, bs, slots[12], i, w);
  }

  /** Two words lead through the block of slot 13; a zero on the way is a hole. */
  lemma MapDouble(disk: Disk, bs: nat, slots: seq<nat>, index: nat, n: nat, i: nat, j: nat, b: u32, w: u32)
    requires Sized(disk, bs) && |slots| == SLOTS && n == bs / 4 && i < n && j < n && index == DIRECT + n + i * n + j
    requires WordAt(disk, slots[13], i, b) && (b != 0 ==> WordAt(disk, b, j, w))
    ensures MapBlock(disk, bs, slots, index) == if b == 0 then 0 else w
  {
    hide Pointer, Square, MapBlock;
    JoinParts(i, j, n);
    assert index - DIRECT - n == Join(i, j, n) < Square(n) by { QuotientBelow(Join(i, j, n), n, n); SquareIs(n); }
    MapCases(disk, bs, slots, index);
    NoPointer(disk, bs);
    PointerWord(disk, bs, slots[13], i, b);
    if b != 0 { PointerWord(disk, bs, b, j, w); }
  }

  /** Three words lead through the block of slot 14; a zero on the way is a hole. */
  lemma MapTriple(disk: Disk, bs: nat, slots: seq<nat>, index: nat, n: nat, i: nat, j: nat, k: nat, b: u32, c: u32,
                  w: u32)
    requires Sized(disk, bs) && |slots| == SLOTS && n == bs / 4 && i < n && j < n && k < n
    requires index == DIRECT + n + n * n + i * (n * n) + j * n + k
    requires WordAt(disk, slots[14], i, b) && (b != 0 ==> WordAt(disk, b, j, c))
    requires b != 0 && c != 0 ==> WordAt(disk, c, k, w)
    ensures MapBlock(disk, bs, slots, index) == if b == 0 || c == 0 then 0 else w
  {
    hide Pointer, Square, MapBlock, WordAt, Join;
    SquareIs(n);
    JoinIs(j, k, n);
    JoinIs(i, Join(j, k, n), Square(n));
    TripleBlock(disk, bs, slots, index, n, i, j, k, b, c, w);
  }

  /** The same, with the place written as digits. */
  lemma TripleBlock(disk: Disk, bs: nat, slots: seq<nat>, index: nat, n: nat, i: nat, j: nat, k: nat, b: u32, c: u32,
                    w: u32)
    requires Sized(disk, bs) && |slots| == SLOTS && n == bs / 4 && j < n && k < n
    requires index == DIRECT + n + Square(n) + Join(i, Join(j, k, n), Square(n))
    requires WordAt(disk, slots[14], i, b) && (b != 0 ==> WordAt(disk, b, j, c))
    requires b != 0 && c != 0 ==> WordAt(disk, c, k, w)
    ensures MapBlock(disk, bs, slots, index) == if b == 0 || c == 0 then 0 else w
  {
    hide Pointer, Square, MapBlock, WordAt, Join;
    TripleParts(n, i, j, k);
    MapCases(disk, bs, slots, index);
    WalkThree(disk, bs, slots[14], i, j, k, b, c, w);
  }

  /** Three lookups along three words. */
  lemma WalkThree(disk: Disk, bs: nat, a: nat, i: nat, j: nat, k: nat, b: u32, c: u32, w: u32)
    requires Sized(disk, bs) && WordAt(disk, a, i, b) && (b != 0 ==> WordAt(disk, b, j, c))
    requires b != 0 && c != 0 ==> WordAt(disk, c, k, w)
    ensures Pointer(disk, bs, Pointer(disk, bs, Pointer(disk, bs, a, i), j), k) == if b == 0 || c == 0 then 0 else w
  {
    hide Pointer, WordAt;
    NoPointer(disk, bs);
    PointerWord(disk, bs, a, i, b);
    if b != 0 {
      PointerWord(disk, bs, b, j, c);
      if c != 0 { PointerWord(disk, bs, c, k, w); }
    }
  }

  /** The digits of a place in the triple tree. */
  lemma TripleParts(n: nat, i: nat, j: nat, k: nat)
    requires j < n && k < n
    ensures var rest := Join(i, Join(j, k, n), Square(n));
            rest / Square(n) == i && rest % Square(n) / n == j && rest % Square(n) % n == k
  {
    hide Square, Join;
    SquareIs(n);
    var low := Join(j, k, n);
    JoinParts(j, k, n);
    QuotientBelow(low, n, n);
    JoinParts(i, low, Square(n));
  }

  lemma JoinIs(a: nat, b: nat, n: nat)
    ensures Join(a, b, n) == a * n + b
  {
  }

  lemma NoPointer(disk: Disk, bs: nat)
    requires Sized(disk, bs)
    ensures forall i: nat :: Pointer(disk, bs, 0, i) == 0
  {
  }

  /** Past the reach of the triple indirect tree everything is a hole. */
  lemma PastCapacity(disk: Disk, bs: nat, slots: seq<nat>, index: nat)
    requires Sized(disk, bs) && |slots| == SLOTS && index >= Capacity(bs / 4)
    ensures MapBlock(disk, bs, slots, index) == 0
  {
    hide Square;
    var n := bs / 4;
    QuotientBelow(index - DIRECT - n - Square(n), Square(n), n);
    var path := Path(n, index);
    FollowZero(disk, bs, path[2..]);
    assert path[1..][1..] == path[2..];
  }

  /** A walk only depends on the blocks it visits. */
  lemma {:induction false} FollowFrame(disk: Disk, disk': Disk, bs: nat, block: nat, path: seq<nat>)
    requires Sized(disk, bs) && Sized(disk', bs) && |disk| == |disk'|
    requires forall b: nat | b in Visited(disk, bs, block, path) && b < |disk| :: disk[b] == disk'[b]
    ensures Follow(disk', bs, block, path) == Follow(disk, bs, block, path)
    ensures Visited(disk', bs, block, path) == Visited(disk, bs, block, path)
    decreases |path|
  {
    if path != [] {
      if block == 0 {
        FollowZero(disk, bs, path);
        FollowZero(disk', bs, path);
      } else {
        assert Pointer(disk', bs, block, path[0]) == Pointer(disk, bs, block, path[0]);
        FollowFrame(disk, disk', bs, Pointer(disk, bs, block, path[0]), path[1..]);
      }
    }
  }

  lemma MapFrame(disk: Disk, disk': Disk, bs: nat, slots: seq<nat>, index: nat)
    requires Sized(disk, bs) && Sized(disk', bs) && |disk| == |disk'| && |slots| == SLOTS
    requires forall b: nat | b in Consulted(disk, bs, slots, index) && b < |disk| :: disk[b] == disk'[b]
    ensures MapBlock(disk', bs, slots, index) == MapBlock(disk, bs, slots, index)
    ensures Consulted(disk', bs, slots, index) == Consulted(disk, bs, slots, index)
  {
    var path := Path(bs / 4, index);
    FollowFrame(disk, disk', bs, slots[path[0]], path[1..]);
  }
}
