/** The contents of an ext2 file, and what writing one of its blocks does to them. */
module Ext2File {
  import opened Arith
  import opened Bytes
  import opened Ext2Bitmap
  import opened Ext2Disk
  import opened Ext2Map

  /** Block `i` of the file; holes read as zeros. */
  function FileBlock(disk: Disk, bs: nat, slots: seq<nat>, i: nat): (d: seq<byte>)
    requires Sized(disk, bs) && |slots| == SLOTS
    ensures |d| == bs
  {
    var m := MapBlock(disk, bs, slots, i);
    if 0 < m < |disk| then disk[m] else Zeros(bs)
  }

  function FileByte(disk: Disk, bs: nat, slots: seq<nat>, pos: nat): byte
    requires Sized(disk, bs) && |slots| == SLOTS
  {
    FileBlock(disk, bs, slots, pos / bs)[pos % bs]
  }

  /** Byte k of block i of the file is byte k of the block the map names, 0 in a hole. */
  lemma FilePlace(disk: Disk, bs: nat, slots: seq<nat>, i: nat, k: nat, pos: nat)
    requires Sized(disk, bs) && |slots| == SLOTS && k < bs && pos == i * bs + k
    ensures var m := MapBlock(disk, bs, slots, i);
            FileByte(disk, bs, slots, pos) == if 0 < m < |disk| then disk[m][k] else 0
  {
    hide MapBlock;
    JoinParts(i, k, bs);
  }

  // ---- whose block it is ---------------------------------------------------------------------

  /** A block that holds somebody's data or pointers. */
  ghost predicate Owned(geo: Geometry, disk: Disk, b: nat)
    requires Laid(geo, disk)
  {
    0 < b < |disk| && InUse(geo, disk, b) && b !in geo.bitmaps
  }

  ghost predicate Ready(geo: Geometry, bs: nat, disk: Disk, slots: seq<nat>) {
    Laid(geo, disk) && Sized(disk, bs) && |slots| == SLOTS
  }

  ghost predicate IsData(bs: nat, disk: Disk, slots: seq<nat>, b: nat)
    requires Sized(disk, bs) && |slots| == SLOTS
  {
    b != 0 && exists i: nat :: MapBlock(disk, bs, slots, i) == b
  }

  /** The blocks of a file are its own: in use, data apart from pointers, no block at two places of the file. */
  ghost predicate Sound(geo: Geometry, bs: nat, disk: Disk, slots: seq<nat>)
    requires Ready(geo, bs, disk, slots)
  {
    && (forall i: nat :: MapBlock(disk, bs, slots, i) != 0 ==> Owned(geo, disk, MapBlock(disk, bs, slots, i)))
    && (forall i: nat, b: nat {:trigger b in Consulted(disk, bs, slots, i)} | b in Consulted(disk, bs, slots, i) ::
         Owned(geo, disk, b))
    && (forall i: nat, j: nat | i != j && MapBlock(disk, bs, slots, i) != 0 ::
          MapBlock(disk, bs, slots, i) != MapBlock(disk, bs, slots, j))
    && (forall i: nat, j: nat | MapBlock(disk, bs, slots, i) != 0 ::
          MapBlock(disk, bs, slots, i) !in Consulted(disk, bs, slots, j))
  }

  /** Nothing that belongs to anybody else was touched. */
  ghost predicate Kept(geo: Geometry, bs: nat, disk: Disk, slots: seq<nat>, disk': Disk, slots': seq<nat>)
    requires Ready(geo, bs, disk, slots) && Ready(geo, bs, disk', slots')
  {
    && |disk'| == |disk|
    && forall b: nat | Owned(geo, disk, b) && !IsData(bs, disk, slots, b) ::
         disk'[b] == disk[b] && Owned(geo, disk', b) && !IsData(bs, disk', slots', b)
  }

  // ---- overwriting a block ---------------------------------------------------------------------

  /** Replacing the contents of one data block leaves the maps of the file as they are. */
  lemma OverwriteMap(geo: Geometry, bs: nat, disk: Disk, slots: seq<nat>, i: nat, data: seq<byte>, j: nat)
    requires Ready(geo, bs, disk, slots) && Sound(geo, bs, disk, slots) && |data| == bs
    requires MapBlock(disk, bs, slots, i) != 0
    ensures var disk' := disk[MapBlock(disk, bs, slots, i) := data];
            && Sized(disk', bs)
            && MapBlock(disk', bs, slots, j) == MapBlock(disk, bs, slots, j)
            && Consulted(disk', bs, slots, j) == Consulted(disk, bs, slots, j)
  {
    hide MapBlock, Consulted, InUse, Laid;
    MapFrame(disk, disk[MapBlock(disk, bs, slots, i) := data], bs, slots, j);
  }

  lemma OverwriteUse(geo: Geometry, disk: Disk, m: nat, data: seq<byte>)
    requires Laid(geo, disk) && Owned(geo, disk, m) && |data| == |disk[m]|
    ensures var disk' := disk[m := data];
            Laid(geo, disk') && forall b: nat :: InUse(geo, disk', b) == InUse(geo, disk, b)
  {
    hide BitAt, Group, Index;
  }

  lemma OverwriteKeeps(geo: Geometry, bs: nat, disk: Disk, slots: seq<nat>, i: nat, data: seq<byte>)
    requires Ready(geo, bs, disk, slots) && Sound(geo, bs, disk, slots) && |data| == bs
    requires MapBlock(disk, bs, slots, i) != 0
    ensures var disk' := disk[MapBlock(disk, bs, slots, i) := data];
            && Ready(geo, bs, disk', slots) && Sound(geo, bs, disk', slots)
            && Kept(geo, bs, disk, slots, disk', slots)
            && FileBlock(disk', bs, slots, i) == data
            && (forall j: nat | j != i :: FileBlock(disk', bs, slots, j) == FileBlock(disk, bs, slots, j))
  {
    hide MapBlock, Consulted, InUse, Laid;
    var m := MapBlock(disk, bs, slots, i);
    var disk' := disk[m := data];
    OverwriteUse(geo, disk, m, data);
    forall j: nat
      ensures MapBlock(disk', bs, slots, j) == MapBlock(disk, bs, slots, j)
      ensures Consulted(disk', bs, slots, j) == Consulted(disk, bs, slots, j)
    {
      OverwriteMap(geo, bs, disk, slots, i, data, j);
    }
    assert forall b: nat :: Owned(geo, disk', b) == Owned(geo, disk, b);
  }

  // ---- adding a block --------------------------------------------------------------------------

  ghost function Added(geo: Geometry, disk: Disk, b: nat, data: seq<byte>): Disk
    requires Laid(geo, disk) && InGroups(geo, b) && b < |disk|
  {
    Marked(geo, disk, b)[b := data]
  }

  lemma DirectMap(disk: Disk, bs: nat, slots: seq<nat>, i: nat)
    requires Sized(disk, bs) && |slots| == SLOTS && i < DIRECT
    ensures MapBlock(disk, bs, slots, i) == slots[i] && Consulted(disk, bs, slots, i) == {}
  {
  }

  lemma PathSlot(n: nat, i: nat, j: nat)
    requires n > 0 && i < DIRECT && i != j
    ensures Path(n, j)[0] != i
  {
  }

  /** A new block in a direct slot leaves the rest of the map as it is. */
  lemma AddedMap(geo: Geometry, bs: nat, disk: Disk, slots: seq<nat>, i: nat, b: nat, data: seq<byte>, j: nat)
    requires Ready(geo, bs, disk, slots) && Sound(geo, bs, disk, slots) && |data| == bs
    requires i < DIRECT && b < |disk| && InGroups(geo, b) && !InUse(geo, disk, b)
    ensures Sized(Added(geo, disk, b, data), bs)
    ensures MapBlock(Added(geo, disk, b, data), bs, slots[i := b], j)
         == if j == i then b else MapBlock(disk, bs, slots, j)
    ensures Consulted(Added(geo, disk, b, data), bs, slots[i := b], j) == Consulted(disk, bs, slots, j)
  {
    hide MapBlock, Consulted, InUse, Laid, WithBit, Group, Index;
    var disk' := Added(geo, disk, b, data);
    MarkedSize(geo, disk, b);
    DirectMap(disk', bs, slots[i := b], i);
    DirectMap(disk, bs, slots, i);
    if j != i {
      forall c: nat | c in Consulted(disk, bs, slots, j) && c < |disk|
        ensures disk'[c] == disk[c]
      {
        MarkedElsewhere(geo, disk, b, c);
      }
      MapFrame(disk, disk', bs, slots, j);
      OtherSlot(disk', bs, slots, i, b, j);
    }
  }

  lemma OtherSlot(disk: Disk, bs: nat, slots: seq<nat>, i: nat, b: nat, j: nat)
    requires Sized(disk, bs) && |slots| == SLOTS && i < DIRECT && i != j
    ensures MapBlock(disk, bs, slots[i := b], j) == MapBlock(disk, bs, slots, j)
    ensures Consulted(disk, bs, slots[i := b], j) == Consulted(disk, bs, slots, j)
  {
    hide Path;
    PathSlot(bs / 4, i, j);
  }

  lemma AddedUse(geo: Geometry, disk: Disk, b: nat, data: seq<byte>)
    requires Laid(geo, disk) && Safe(geo, disk) && InGroups(geo, b) && !InUse(geo, disk, b)
    requires b < |disk| && |data| == |disk[b]|
    ensures Laid(geo, Added(geo, disk, b, data))
    ensures forall c: nat :: InUse(geo, Added(geo, disk, b, data), c) <==> c == b || InUse(geo, disk, c)
    ensures Owned(geo, Added(geo, disk, b, data), b)
  {
    hide InUse, Laid, Marked;
    MarkedLaid(geo, disk, b);
    MarkedSize(geo, disk, b);
    forall c: nat
      ensures InUse(geo, Marked(geo, disk, b), c) <==> c == b || InUse(geo, disk, c)
    {
      MarkedUse(geo, disk, b, c);
    }
    assert Marked(geo, disk, b)[b] == disk[b] by { MarkedElsewhere(geo, disk, b, b); }
    OverwriteUse(geo, Marked(geo, disk, b), b, data);
  }

  lemma MarkedElsewhere(geo: Geometry, disk: Disk, b: nat, c: nat)
    requires Laid(geo, disk) && InGroups(geo, b) && c < |disk| && c !in geo.bitmaps
    ensures |Marked(geo, disk, b)| == |disk| && Marked(geo, disk, b)[c] == disk[c]
  {
    hide WithBit, Group, Index;
    assert geo.bitmaps[Group(geo, b)] in geo.bitmaps;
  }

  lemma AddedKeeps(geo: Geometry, bs: nat, disk: Disk, slots: seq<nat>, i: nat, b: nat, data: seq<byte>)
    requires Ready(geo, bs, disk, slots) && Safe(geo, disk) && Sound(geo, bs, disk, slots) && |data| == bs
    requires i < DIRECT && slots[i] == 0 && 0 < b < |disk| && InGroups(geo, b) && !InUse(geo, disk, b)
    ensures Ready(geo, bs, Added(geo, disk, b, data), slots[i := b])
    ensures Sound(geo, bs, Added(geo, disk, b, data), slots[i := b])
    ensures Kept(geo, bs, disk, slots, Added(geo, disk, b, data), slots[i := b])
    ensures FileBlock(Added(geo, disk, b, data), bs, slots[i := b], i) == data
    ensures forall j: nat | j != i ::
              FileBlock(Added(geo, disk, b, data), bs, slots[i := b], j) == FileBlock(disk, bs, slots, j)
  {
    hide MapBlock, Consulted, InUse, Laid, Marked, InGroups;
    var disk' := Added(geo, disk, b, data);
    var slots' := slots[i := b];
    AddedUse(geo, disk, b, data);
    forall j: nat
      ensures Sized(disk', bs)
      ensures MapBlock(disk', bs, slots', j) == if j == i then b else MapBlock(disk, bs, slots, j)
      ensures Consulted(disk', bs, slots', j) == Consulted(disk, bs, slots, j)
    {
      AddedMap(geo, bs, disk, slots, i, b, data, j);
    }
    assert Sized(disk', bs) by { AddedMap(geo, bs, disk, slots, i, b, data, 0); }
    DirectMap(disk, bs, slots, i);
    MarkedSize(geo, disk, b);
    forall c: nat | c < |disk| && c !in geo.bitmaps && c != b
      ensures disk'[c] == disk[c]
    {
      MarkedElsewhere(geo, disk, b, c);
    }
    assert forall c: nat :: Owned(geo, disk', c) <==> c == b || Owned(geo, disk, c);
  }

  // ---- positions -------------------------------------------------------------------------------

  /** The next `n` positions after `pos`, when they stay inside its block. */
  lemma InBlock(bs: nat, pos: nat, n: nat, p: nat)
    requires BlockSize(bs) && pos < U32 && pos % bs + n <= bs
    ensures pos + n <= U32
    ensures pos <= p < pos + n <==> p / bs == pos / bs && pos % bs <= p % bs < pos % bs + n
    ensures p / bs == pos / bs ==> p - pos == p % bs - pos % bs
  {
    PartsJoin(pos, bs);
    PartsJoin(p, bs);
    QuotientBelow(pos, bs, U32 / bs);
    if pos <= p < pos + n {
      JoinParts(pos / bs, pos % bs + (p - pos), bs);
    }
  }

  /** File positions are 32-bit: where byte `k` of a transfer at `offset` is. */
  function Target(offset: nat, k: nat): (pos: nat)
    ensures pos < U32
  {
    (offset + k) % U32
  }

  lemma TargetInBlock(bs: nat, offset: nat, done: nat, n: nat, k: nat)
    requires BlockSize(bs) && Target(offset, done) % bs + n <= bs && done <= k < done + n
    ensures Target(offset, k) / bs == Target(offset, done) / bs
    ensures Target(offset, k) % bs == Target(offset, done) % bs + (k - done)
  {
    var pos := Target(offset, done);
    InBlock(bs, pos, n, pos + (k - done));
    JoinParts((offset + done) / U32, pos + (k - done), U32);
  }

  /** `n` bytes of the file from `offset` on. */
  function FileBytes(disk: Disk, bs: nat, slots: seq<nat>, offset: nat, n: nat): (r: seq<byte>)
    requires Sized(disk, bs) && |slots| == SLOTS
    ensures |r| == n && forall k: nat | k < n :: r[k] == FileByte(disk, bs, slots, Target(offset, k))
  {
    if n == 0 then []
    else FileBytes(disk, bs, slots, offset, n - 1) + [FileByte(disk, bs, slots, Target(offset, n - 1))]
  }

  /** One block's worth of a read, when that block is a hole or is on the device. */
  lemma ReadPiece(disk: Disk, bs: nat, slots: seq<nat>, offset: nat, done: nat, n: nat)
    requires Sized(disk, bs) && |slots| == SLOTS && Target(offset, done) % bs + n <= bs
    ensures var off := Target(offset, done) % bs; var m := MapBlock(disk, bs, slots, Target(offset, done) / bs);
            && (m == 0 ==>
                 FileBytes(disk, bs, slots, offset, done) + Zeros(n) == FileBytes(disk, bs, slots, offset, done + n))
            && (0 < m < |disk| ==> FileBytes(disk, bs, slots, offset, done) + disk[m][off..off + n]
                                   == FileBytes(disk, bs, slots, offset, done + n))
  {
    hide MapBlock, Target, FileBytes;
    var pos := Target(offset, done);
    var m := MapBlock(disk, bs, slots, pos / bs);
    var a, b := FileBytes(disk, bs, slots, offset, done), FileBytes(disk, bs, slots, offset, done + n);
    forall k: nat | done <= k < done + n
      ensures m == 0 ==> b[k] == 0
      ensures 0 < m < |disk| ==> b[k] == disk[m][pos % bs + (k - done)]
    {
      TargetInBlock(bs, offset, done, n, k);
    }
    assert forall k: nat | k < done :: a[k] == b[k];
  }

  /** Which byte of a transfer at `offset` goes to position `pos`. */
  function Source(pos: nat, offset: nat): nat {
    (pos - offset) % U32
  }

  /** The positions of a piece of a transfer that stays inside one block. */
  lemma Piece(bs: nat, offset: nat, done: nat, n: nat, p: nat)
    requires BlockSize(bs) && Target(offset, done) % bs + n <= bs && done + n < U32
    requires offset < U32 && p < U32
    ensures var pos := Target(offset, done);
            && (done <= Source(p, offset) < done + n <==>
                  p / bs == pos / bs && pos % bs <= p % bs < pos % bs + n)
            && (done <= Source(p, offset) < done + n ==> Source(p, offset) - done == p % bs - pos % bs)
  {
    var pos := Target(offset, done);
    InBlock(bs, pos, n, p);
    assert Source(p, offset) == if p >= offset then p - offset else p - offset + U32;
    assert pos == if offset + done < U32 then offset + done else offset + done - U32;
  }

  /** After a transfer of the first `done` bytes of `data`: those bytes are in place and no other byte changed. */
  ghost predicate Wrote(bs: nat, disk: Disk, slots: seq<nat>, disk': Disk, slots': seq<nat>, offset: nat,
                        data: seq<byte>, done: nat)
    requires Sized(disk, bs) && |slots| == SLOTS && Sized(disk', bs) && |slots'| == SLOTS && done <= |data|
  {
    forall p: nat | p < U32 ::
      FileByte(disk', bs, slots', p) ==
      if Source(p, offset) < done then data[Source(p, offset)] else FileByte(disk, bs, slots, p)
  }

  /** One more block of the transfer. */
  lemma WroteMore(bs: nat, disk: Disk, slots: seq<nat>, disk1: Disk, slots1: seq<nat>, disk2: Disk, slots2: seq<nat>,
                  offset: nat, data: seq<byte>, done: nat, n: nat)
    requires Sized(disk, bs) && |slots| == SLOTS && Sized(disk1, bs) && |slots1| == SLOTS && Sized(disk2, bs)
    requires |slots2| == SLOTS
    requires offset < U32 && done + n <= |data| < U32 && Wrote(bs, disk, slots, disk1, slots1, offset, data, done)
    requires var pos := Target(offset, done); var i := pos / bs;
             && pos % bs + n <= bs
             && FileBlock(disk2, bs, slots2, i)
                == Store(FileBlock(disk1, bs, slots1, i), pos % bs, data[done..done + n])
             && (forall j: nat | j != i :: FileBlock(disk2, bs, slots2, j) == FileBlock(disk1, bs, slots1, j))
    ensures Wrote(bs, disk, slots, disk2, slots2, offset, data, done + n)
  {
    hide FileBlock, Store, Source;
    forall p: nat | p < U32
      ensures FileByte(disk2, bs, slots2, p) ==
              if Source(p, offset) < done + n then data[Source(p, offset)] else FileByte(disk, bs, slots, p)
    {
      Piece(bs, offset, done, n, p);
    }
  }
}
