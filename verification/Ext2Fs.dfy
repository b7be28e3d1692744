/** A mounted ext2 file system: block allocation, file reads and file writes (kernel/ext2.c). */
module Ext2Fs {
  import opened Arith
  import opened Bytes
  import opened Ext2Bitmap
  import opened Ext2Disk
  import opened Ext2File
  import opened Ext2Map

  /** What every operation keeps: the layout, the free counters and the safety of what is marked free. */
  ghost predicate Consistent(geo: Geometry, bs: nat, disk: Disk, groupFree: seq<nat>, free: nat) {
    Laid(geo, disk) && Sized(disk, bs) && Counted(geo, disk, groupFree, free) && Safe(geo, disk)
  }

  /** The group looked at in round `g` of ext2_alloc_block. */
  function Candidate(preferred: int, g: nat, groups: nat): (r: nat)
    requires g < groups
    ensures r < groups
  {
    if preferred >= 0 then (preferred + g) % groups else g
  }

  /** The rounds visit every group. */
  lemma EveryGroup(preferred: int, h: nat, groups: nat) returns (g: nat)
    requires h < groups
    ensures g < groups && Candidate(preferred, g, groups) == h
  {
    if preferred < 0 {
      g := h;
    } else {
      g := Distance(preferred, h, groups);
    }
  }

  lemma Distance(p: nat, h: nat, n: nat) returns (g: nat)
    requires h < n
    ensures g < n && (p + g) % n == h
  {
    hide Times;
    var q, r := Div(p, n), Mod(p, n);
    DivModJoin(p, n);
    TimesStep(q, q + 1, n);
    DivModOf(q, h, n);
    DivModOf(q + 1, h, n);
    g := if r <= h then h - r else h + n - r;
    assert p + g == if r <= h then Times(q, n) + h else Times(q + 1, n) + h;
  }

  /** If a free block exists, some group counts it. */
  lemma NoneLeft(groupFree: seq<nat>, free: nat, preferred: int)
    requires free == Sum(groupFree)
    requires forall g: nat | g < |groupFree| :: groupFree[Candidate(preferred, g, |groupFree|)] == 0
    ensures free == 0
  {
    forall h: nat | h < |groupFree|
      ensures groupFree[h] == 0
    {
      var g := EveryGroup(preferred, h, |groupFree|);
    }
    SumZero(groupFree);
  }

  /** No free block of the same group has a smaller number. */
  ghost predicate Lowest(geo: Geometry, disk: Disk, b: nat)
    requires Laid(geo, disk) && InGroups(geo, b)
  {
    forall c: nat | c < b && InGroups(geo, c) && Group(geo, c) == Group(geo, b) :: InUse(geo, disk, c)
  }

  lemma FirstIsLowest(geo: Geometry, disk: Disk, group: nat, i: nat)
    requires Laid(geo, disk) && group < |geo.bitmaps| && i < geo.blocksPerGroup
    requires forall j: nat | j < i :: BitAt(disk[geo.bitmaps[group]], j)
    requires InGroups(geo, BlockNo(geo, group, i))
    ensures Lowest(geo, disk, BlockNo(geo, group, i))
  {
    hide BitAt, Join;
    var b := BlockNo(geo, group, i);
    BlockNoInverse(geo, group, i);
    forall c: nat | c < b && InGroups(geo, c) && Group(geo, c) == Group(geo, b)
      ensures InUse(geo, disk, c)
    {
      BlockNoBack(geo, c);
      assert Index(geo, c) < i by { JoinOrder(group, Index(geo, c), i, geo.blocksPerGroup); }
    }
  }

  lemma JoinOrder(a: nat, i: nat, j: nat, n: nat)
    ensures Join(a, i, n) < Join(a, j, n) <==> i < j
  {
  }

  type Word = n: nat | n < U32

  /**
   The part of an in-memory inode that file data is reached through. `size` is
   i_size; for a regular file `sizeHigh`, the field i_dir_acl, is the high word.
   */
  class Inode {
    var slots: seq<nat>
    var regular: bool
    var size: Word
    var sizeHigh: Word
    var blocks: nat

    constructor (slots: seq<nat>, regular: bool, size: Word, sizeHigh: Word, blocks: nat)
      ensures this.slots == slots && this.regular == regular && this.size == size && this.sizeHigh == sizeHigh
      ensures this.blocks == blocks
    {
      this.slots := slots;
      this.regular := regular;
      this.size := size;
      this.sizeHigh := sizeHigh;
      this.blocks := blocks;
    }

    /** The size that ext2_read_file goes by. */
    function FileSize(): nat
      reads this
    {
      Combined(regular, size, sizeHigh)
    }
  }

  function Combined(regular: bool, low: nat, high: nat): nat {
    if regular then low + U32 * high else low
  }

  /** The size ext2_write_file leaves is the larger of the old size and the true end of the write. */
  predicate SizeRight(regular: bool, low: nat, high: nat, end: nat) {
    Combined(regular, Max(low, end % U32), high) == Max(Combined(regular, low, high), end)
  }

  /** No high word to carry into below 4 GiB; past it, a carry that the high word already has. */
  predicate GrowthFits(regular: bool, low: nat, high: nat, end: nat) {
    if end < U32 then !regular || high == 0 || end <= low
    else regular && (high == 1 || (high > 1 && end % U32 <= low))
  }

  /**
   The driver raises the low word alone, to the end of the write in 32 bits: that is right
   exactly under this condition.
   */
  lemma GrowthExact(regular: bool, low: Word, high: Word, end: nat)
    requires end < 2 * U32
    ensures SizeRight(regular, low, high, end) <==> GrowthFits(regular, low, high, end)
  {
    if end >= U32 {
      assert end % U32 == end - U32;
    }
    if high > 1 {
      assert U32 * high >= 2 * U32;
    }
  }

  /**
   In a file of 4 GiB and 100 bytes, a write up to byte 200 adds 100 bytes to the size;
   32 bytes written 16 bytes below 4 GiB leave the size of a file below that behind.
   */
  lemma GrowthExample()
    ensures Combined(true, Max(100, 200), 1) == Combined(true, 100, 1) + 100 && !SizeRight(true, 100, 1, 200)
    ensures !SizeRight(true, 0xFFFF_FFF8, 0, 0xFFFF_FFF0 + 0x20)
    ensures Combined(true, Max(0xFFFF_FFF8, (0xFFFF_FFF0 + 0x20) % U32), 0) == 0xFFFF_FFF8
  {
  }

  /** The bytes of a read or write lie at their places exactly when it does not run past 4 GiB. */
  lemma PlaceExact(offset: nat, n: nat)
    requires offset < U32 && n < U32
    ensures (forall k: nat | k < n :: Target(offset, k) == offset + k) <==> offset + n <= U32
  {
    if offset + n > U32 {
      assert Target(offset, U32 - offset) == 0;
    }
  }

  /** Of 32 bytes written 16 bytes below 4 GiB the last 16 land at the start of the file. */
  lemma PlaceExample(k: nat)
    requires k < 0x10
    ensures Target(0xFFFF_FFF0, 0x10 + k) == k
  {
  }

  class FileSystem {
    const geo: Geometry
    const bs: nat
    const dev: Device
    var groupFree: seq<nat>
    var free: nat

    ghost predicate Valid()
      reads this, dev
    {
      dev.Valid() && Consistent(geo, bs, dev.disk, groupFree, free)
    }

    constructor (geo: Geometry, bs: nat, dev: Device, groupFree: seq<nat>, free: nat)
      requires dev.Valid() && Consistent(geo, bs, dev.disk, groupFree, free)
      ensures Valid() && this.dev == dev && this.geo == geo && this.bs == bs
      ensures this.groupFree == groupFree && this.free == free
    {
      hide Counted, Safe, Sized, Laid, Coherent;
      this.geo := geo;
      this.bs := bs;
      this.dev := dev;
      this.groupFree := groupFree;
      this.free := free;
    }

    // ---- allocation ------------------------------------------------------------------------

    /** ext2_alloc_block: a block nobody uses, or 0 exactly when there is none. */
    method AllocBlock(preferred: int) returns (b: nat)
      requires Valid()
      modifies this, dev
      ensures Valid()
      ensures b == 0 <==> old(free) == 0
      ensures b == 0 ==> dev.disk == old(dev.disk) && free == old(free) && groupFree == old(groupFree)
      ensures b != 0 ==> b < |old(dev.disk)| && InGroups(geo, b) && !InUse(geo, old(dev.disk), b)
      ensures b != 0 ==> dev.disk == Marked(geo, old(dev.disk), b) && free == old(free) - 1
      ensures b != 0 ==> Lowest(geo, old(dev.disk), b) && |old(groupFree)| == |geo.bitmaps|
      ensures b != 0 && preferred >= 0 && old(groupFree)[preferred % |geo.bitmaps|] > 0 ==>
                Group(geo, b) == preferred % |geo.bitmaps|
    {
      hide Safe, Sized, Laid, InUse, Coherent, Marked, ClearCount, Sum, InGroups;
      b := 0;
      if free == 0 {
        return;
      }
      var n := |geo.bitmaps|;
      for g := 0 to n
        invariant b == 0 && dev.Valid() && dev.disk == old(dev.disk) && free == old(free) && groupFree == old(groupFree)
        invariant |groupFree| == n && forall h: nat | h < g :: groupFree[Candidate(preferred, h, n)] == 0
        invariant g > 0 && preferred >= 0 ==> groupFree[preferred % n] == 0
      {
        var group := Candidate(preferred, g, n);
        if groupFree[group] != 0 {
          b := TakeFrom(group);
          return;
        }
      }
      NoneLeft(groupFree, free, preferred);
    }

    /** The rest of a round, in a group whose counter says it has a free block. */
    method TakeFrom(group: nat) returns (b: nat)
      requires Valid() && group < |geo.bitmaps| && |groupFree| == |geo.bitmaps| && groupFree[group] != 0
      modifies this, dev
      ensures Valid()
      ensures 0 < b < |old(dev.disk)| && InGroups(geo, b) && !InUse(geo, old(dev.disk), b) && Group(geo, b) == group
      ensures dev.disk == Marked(geo, old(dev.disk), b) && free == old(free) - 1 && Lowest(geo, old(dev.disk), b)
    {
      hide Counted, Safe, Sized, Laid, InUse, Coherent, Marked, ClearCount, Sum, InGroups, BlockNo, Group, BitAt,
           WithBit;
      ghost var was := dev.disk;
      BitmapFacts(geo, bs, was, groupFree, free, group);
      var ok, bitmap := dev.Read(geo.bitmaps[group]);
      var i := FindClear(bitmap, geo.blocksPerGroup);
      b := BlockNo(geo, group, i);
      TakeFacts(geo, bs, was, groupFree, free, group, i);
      FirstIsLowest(geo, was, group, i);
      ok := dev.Write(geo.bitmaps[group], WithBit(bitmap, i));
      groupFree := groupFree[group := groupFree[group] - 1];
      free := free - 1;
    }

    /** ext2_free_block: refuses block 0, numbers outside the groups and blocks that are already free. */
    method FreeBlock(b: nat) returns (r: int)
      requires Valid() && b < U32
      requires InUse(geo, dev.disk, b) ==> b < |dev.disk| && b !in geo.bitmaps
      modifies this, dev
      ensures Valid() && (r == 0 || r == -1)
      ensures r == 0 <==> b != 0 && InUse(geo, old(dev.disk), b)
      ensures r == -1 ==> dev.disk == old(dev.disk) && free == old(free) && groupFree == old(groupFree)
      ensures r == 0 ==> dev.disk == Unmarked(geo, old(dev.disk), b) && free == old(free) + 1
      ensures r == 0 ==> groupFree == old(groupFree)[Group(geo, b) := old(groupFree)[Group(geo, b)] + 1]
    {
      hide Counted, Safe, Sized, Coherent, ClearCount, Sum, BitAt, WithoutBit;
      ghost var was := dev.disk;
      if b == 0 {
        return -1;
      }
      var x := (b - geo.firstData) % U32;
      var group := x / geo.blocksPerGroup;
      var index := x % geo.blocksPerGroup;
      GroupCheck(geo, was, b);
      if group >= |geo.bitmaps| {
        return -1;
      }
      var ok, bitmap := dev.Read(geo.bitmaps[group]);
      if !BitAt(bitmap, index) {
        return -1;
      }
      FreeFacts(geo, bs, was, groupFree, free, b);
      ok := dev.Write(geo.bitmaps[group], WithoutBit(bitmap, index));
      groupFree := groupFree[group := groupFree[group] + 1];
      free := free + 1;
      r := 0;
    }

    // ---- reading -----------------------------------------------------------------------------

    /** ext2_read_indirect. */
    method ReadIndirect(block: nat, index: nat) returns (p: nat)
      requires dev.Valid() && Sized(dev.disk, bs)
      modifies dev`entries, dev`counter
      ensures dev.Valid() && p == Pointer(dev.disk, bs, block, index)
    {
      if block == 0 {
        return 0;
      }
      var ok, buffer := dev.Read(block);
      if !ok || index >= bs / 4 {
        return 0;
      }
      p := Load32(buffer, 4 * index);
    }

    /** ext2_get_inode_block: the block map of the inode. */
    method GetInodeBlock(slots: seq<nat>, index: nat) returns (m: nat)
      requires dev.Valid() && Sized(dev.disk, bs) && |slots| == SLOTS
      modifies dev`entries, dev`counter
      ensures dev.Valid() && m == MapBlock(dev.disk, bs, slots, index)
    {
      hide Coherent, Square, MapBlock, Pointer;
      var n := bs / 4;
      if index < DIRECT {
        DirectMap(dev.disk, bs, slots, index);
        return slots[index];
      }
      MapCases(dev.disk, bs, slots, index);
      NoPointer(dev.disk, bs);
      var i := index - DIRECT;
      if i < n {
        m := ReadIndirect(slots[12], i);
        return;
      }
      i := i - n;
      if i < Square(n) {
        var first := ReadIndirect(slots[13], i / n);
        if first == 0 {
          return 0;
        }
        m := ReadIndirect(first, i % n);
        return;
      }
      i := i - Square(n);
      var rest := i % Square(n);
      var first := ReadIndirect(slots[14], i / Square(n));
      if first == 0 {
        return 0;
      }
      var second := ReadIndirect(first, rest / n);
      if second == 0 {
        return 0;
      }
      m := ReadIndirect(second, rest % n);
    }

    /** ext2_read_file: the bytes of the file, up to the first block that is not on the device. */
    method ReadFile(slots: seq<nat>, fileSize: nat, offset: nat, size: nat) returns (out: seq<byte>)
      requires Valid() && |slots| == SLOTS && offset < U32 && size < U32
      modifies dev`entries, dev`counter
      ensures Valid()
      ensures |out| <= ReadCount(fileSize, offset, size)
      ensures out == FileBytes(dev.disk, bs, slots, offset, |out|)
      ensures |out| < ReadCount(fileSize, offset, size) ==>
                var m := MapBlock(dev.disk, bs, slots, Target(offset, |out|) / bs); m != 0 && m >= |dev.disk|
    {
      hide Counted, Safe, Laid, Coherent, MapBlock, Target, FileBytes, ReadCount;
      out := [];
      var count := ReadCount(fileSize, offset, size);
      while |out| < count
        invariant Valid() && |out| <= count
        invariant out == FileBytes(dev.disk, bs, slots, offset, |out|)
        decreases count - |out|
      {
        var pos := Target(offset, |out|);
        var off := pos % bs;
        var n := if bs - off > count - |out| then count - |out| else bs - off;
        var m := GetInodeBlock(slots, pos / bs);
        ReadPiece(dev.disk, bs, slots, offset, |out|, n);
        if m == 0 {
          out := out + Zeros(n);
        } else {
          var ok, buffer := dev.Read(m);
          if !ok {
            return;
          }
          out := out + buffer[off..off + n];
        }
      }
    }

    // ---- writing -----------------------------------------------------------------------------

    /** Gets a block for slot `i` of the file, or gives it back where the map would need an indirect block. */
    method NewBlock(inode: Inode, i: nat) returns (m: nat)
      requires Valid() && |inode.slots| == SLOTS
      modifies this, dev, inode`slots
      ensures Valid() && |inode.slots| == SLOTS
      ensures m == 0 <==> old(free) == 0 || i >= DIRECT
      ensures m == 0 ==> dev.disk == old(dev.disk) && inode.slots == old(inode.slots) && free == old(free)
      ensures m != 0 ==> m < |old(dev.disk)| && InGroups(geo, m) && !InUse(geo, old(dev.disk), m)
      ensures m != 0 ==> dev.disk == Marked(geo, old(dev.disk), m) && inode.slots == old(inode.slots)[i := m]
      ensures m != 0 ==> free == old(free) - 1
    {
      hide Counted, Safe, Sized, Laid, Coherent, InUse, Marked, Unmarked, InGroups, Lowest, Group;
      ghost var was := dev.disk;
      m := AllocBlock(-1);
      if m == 0 {
        return;
      }
      if i < DIRECT {
        inode.slots := inode.slots[i := m];
      } else {
        GiveBack(geo, was, m);
        var r := FreeBlock(m);
        m := 0;
      }
    }

    /** One round of ext2_write_file: `bytes` into block `i` of the file at `off`. */
    method WriteBlock(inode: Inode, i: nat, off: nat, bytes: seq<byte>) returns (ok: bool)
      requires Valid() && |inode.slots| == SLOTS && Sound(geo, bs, dev.disk, inode.slots) && off + |bytes| <= bs
      modifies this, dev, inode`slots
      ensures Valid() && |inode.slots| == SLOTS && Sound(geo, bs, dev.disk, inode.slots)
      ensures Kept(geo, bs, old(dev.disk), old(inode.slots), dev.disk, inode.slots)
      ensures ok ==>
                FileBlock(dev.disk, bs, inode.slots, i)
                == Store(FileBlock(old(dev.disk), bs, old(inode.slots), i), off, bytes)
      ensures ok ==> forall j: nat | j != i ::
                FileBlock(dev.disk, bs, inode.slots, j) == FileBlock(old(dev.disk), bs, old(inode.slots), j)
      ensures !ok ==> dev.disk == old(dev.disk) && inode.slots == old(inode.slots) && free == old(free)
      ensures !ok <==> MapBlock(old(dev.disk), bs, old(inode.slots), i) == 0 && (old(free) == 0 || i >= DIRECT)
    {
      hide Counted, Safe, Laid, Coherent, InUse, Marked, InGroups, MapBlock, Consulted, Sound, Kept, Store;
      ghost var disk0 := dev.disk;
      ghost var slots0 := inode.slots;
      var m := GetInodeBlock(inode.slots, i);
      var buffer: seq<byte> := Zeros(bs);
      if m == 0 {
        m := NewBlock(inode, i);
        if m == 0 {
          KeptSame(geo, bs, disk0, slots0);
          return false;
        }
        DirectMap(disk0, bs, slots0, i);
        MarkedSize(geo, disk0, m);
        AddedKeeps(geo, bs, disk0, slots0, i, m, Store(buffer, off, bytes));
        AddedConsistent(geo, bs, disk0, groupFree, free, m, Store(buffer, off, bytes));
      } else {
        MappedOwned(geo, bs, disk0, slots0, i);
        if off != 0 || |bytes| < bs {
          ok, buffer := dev.Read(m);
        }
        assert Store(buffer, off, bytes) == Store(disk0[m], off, bytes) by { StoreAll(buffer, disk0[m], off, bytes); }
        OverwriteKeeps(geo, bs, disk0, slots0, i, Store(buffer, off, bytes));
        OverwriteConsistent(geo, bs, disk0, groupFree, free, m, Store(buffer, off, bytes));
      }
      ok := dev.Write(m, Store(buffer, off, bytes));
    }

    /** ext2_write_file: how many bytes were written, at most all of them. */
    method WriteFile(inode: Inode, offset: nat, data: seq<byte>) returns (n: nat)
      requires Valid() && |inode.slots| == SLOTS && Sound(geo, bs, dev.disk, inode.slots)
      requires offset < U32 && |data| < U32
      modifies this, dev, inode
      ensures Valid() && |inode.slots| == SLOTS && Sound(geo, bs, dev.disk, inode.slots)
      ensures Kept(geo, bs, old(dev.disk), old(inode.slots), dev.disk, inode.slots)
      ensures n <= |data| && Wrote(bs, old(dev.disk), old(inode.slots), dev.disk, inode.slots, offset, data, n)
      ensures n < |data| ==> var i := Target(offset, n) / bs;
                MapBlock(dev.disk, bs, inode.slots, i) == 0 && (i >= DIRECT || free == 0)
      ensures inode.size == Max(old(inode.size), Target(offset, n))
      ensures inode.sizeHigh == old(inode.sizeHigh) && inode.regular == old(inode.regular)
      ensures inode.FileSize() == Max(old(inode.FileSize()), offset + n)
              <==> GrowthFits(old(inode.regular), old(inode.size), old(inode.sizeHigh), offset + n)
      ensures inode.size > old(inode.size) && inode.size + bs <= U32 ==>
                inode.size <= 512 * inode.blocks < inode.size + bs
    {
      hide Counted, Safe, Laid, Coherent, InUse, MapBlock, Consulted, Sound, Kept, Store, FileBlock, Target, Wrote,
           Sectors, Combined, GrowthFits;
      n := 0;
      WroteNothing(bs, dev.disk, inode.slots, offset, data);
      KeptSame(geo, bs, dev.disk, inode.slots);
      var ok := true;
      while n < |data| && ok
        invariant Valid() && |inode.slots| == SLOTS && Sound(geo, bs, dev.disk, inode.slots)
        invariant Kept(geo, bs, old(dev.disk), old(inode.slots), dev.disk, inode.slots)
        invariant n <= |data| && Wrote(bs, old(dev.disk), old(inode.slots), dev.disk, inode.slots, offset, data, n)
        invariant !ok ==> var i := Target(offset, n) / bs;
                    MapBlock(dev.disk, bs, inode.slots, i) == 0 && (i >= DIRECT || free == 0)
        invariant inode.size == old(inode.size) && inode.sizeHigh == old(inode.sizeHigh)
        invariant inode.regular == old(inode.regular)
        decreases |data| - n, ok
      {
        ghost var disk1 := dev.disk;
        ghost var slots1 := inode.slots;
        var pos := Target(offset, n);
        var off := pos % bs;
        var count := if bs - off > |data| - n then |data| - n else bs - off;
        ok := WriteBlock(inode, pos / bs, off, data[n..n + count]);
        if ok {
          WroteMore(bs, old(dev.disk), old(inode.slots), disk1, slots1, dev.disk, inode.slots, offset, data, n, count);
          KeptBoth(geo, bs, old(dev.disk), old(inode.slots), disk1, slots1, dev.disk, inode.slots);
          n := n + count;
        }
      }
      var end := Target(offset, n);
      GrowthExact(inode.regular, inode.size, inode.sizeHigh, offset + n);
      TargetIs(offset, n);
      if end > inode.size {
        inode.size := end;
        inode.blocks := Sectors(bs, end);
      }
    }

    /** A write followed by a read of the same range returns what was written, unless the write wrapped past 4 GiB. */
    method WriteThenRead(inode: Inode, offset: nat, data: seq<byte>) returns (n: nat, out: seq<byte>)
      requires Valid() && |inode.slots| == SLOTS && Sound(geo, bs, dev.disk, inode.slots)
      requires offset < U32 && |data| < U32
      modifies this, dev, inode
      ensures n <= |data| && out == if offset < inode.FileSize() then data[..n] else []
      ensures offset + n < U32 ==> out == data[..n]
    {
      hide Counted, Safe, Laid, Coherent, InUse, MapBlock, Consulted, Sound, Kept, Store, FileBlock, Wrote;
      n := WriteFile(inode, offset, data);
      out := ReadFile(inode.slots, inode.FileSize(), offset, n);
      ReadBack(geo, bs, old(dev.disk), old(inode.slots), dev.disk, inode.slots, offset, data, n, |out|);
    }
  }

  // ---- facts about single steps -------------------------------------------------------------------

  lemma MarkedSized(geo: Geometry, bs: nat, disk: Disk, b: nat)
    requires Laid(geo, disk) && Sized(disk, bs) && InGroups(geo, b)
    ensures Sized(Marked(geo, disk, b), bs) && Sized(Unmarked(geo, disk, b), bs)
  {
    hide WithBit, WithoutBit;
  }

  lemma BitmapFacts(geo: Geometry, bs: nat, disk: Disk, groupFree: seq<nat>, free: nat, group: nat)
    requires Consistent(geo, bs, disk, groupFree, free) && group < |geo.bitmaps|
    ensures |groupFree| == |geo.bitmaps| && geo.bitmaps[group] < |disk|
    ensures geo.blocksPerGroup % 8 == 0 && geo.blocksPerGroup <= 8 * |disk[geo.bitmaps[group]]|
    ensures groupFree[group] == ClearCount(disk[geo.bitmaps[group]], geo.blocksPerGroup)
  {
    hide ClearCount, Sum, InUse;
  }

  lemma TakeFacts(geo: Geometry, bs: nat, disk: Disk, groupFree: seq<nat>, free: nat, group: nat, i: nat)
    requires Consistent(geo, bs, disk, groupFree, free) && group < |geo.bitmaps| && i < geo.blocksPerGroup
    requires i / 8 < |disk[geo.bitmaps[group]]| && !BitAt(disk[geo.bitmaps[group]], i)
    ensures var b := BlockNo(geo, group, i);
            && 0 < b < |disk| && InGroups(geo, b) && !InUse(geo, disk, b) && Group(geo, b) == group
            && Marked(geo, disk, b) == disk[geo.bitmaps[group] := WithBit(disk[geo.bitmaps[group]], i)]
            && |groupFree| == |geo.bitmaps| && groupFree[group] > 0 && free > 0
            && Consistent(geo, bs, Marked(geo, disk, b), groupFree[group := groupFree[group] - 1], free - 1)
  {
    hide ClearCount, Sum, BitAt, WithBit, Join, Sized;
    var b := BlockNo(geo, group, i);
    BlockNoInverse(geo, group, i);
    MarkedCounted(geo, disk, groupFree, free, b);
    MarkedSafe(geo, disk, b);
    MarkedSized(geo, bs, disk, b);
  }

  /** How ext2_free_block takes a block number apart, in 32-bit arithmetic, and when it refuses. */
  lemma GroupCheck(geo: Geometry, disk: Disk, b: nat)
    requires Laid(geo, disk) && b < U32
    ensures var x := (b - geo.firstData) % U32;
            && (x / geo.blocksPerGroup < |geo.bitmaps| <==> InGroups(geo, b))
            && (InGroups(geo, b) ==> x / geo.blocksPerGroup == Group(geo, b) && x % geo.blocksPerGroup == Index(geo, b))
  {
    var x := (b - geo.firstData) % U32;
    QuotientBelow(x, geo.blocksPerGroup, |geo.bitmaps|);
    if b < geo.firstData {
      assert x == U32 + b - geo.firstData;
    } else {
      assert x == b - geo.firstData;
    }
  }

  lemma FreeFacts(geo: Geometry, bs: nat, disk: Disk, groupFree: seq<nat>, free: nat, b: nat)
    requires Consistent(geo, bs, disk, groupFree, free)
    requires InGroups(geo, b) && InUse(geo, disk, b) && 0 < b < |disk| && b !in geo.bitmaps
    ensures |groupFree| == |geo.bitmaps|
    ensures Laid(geo, Unmarked(geo, disk, b))
    ensures Consistent(geo, bs, Unmarked(geo, disk, b),
                       groupFree[Group(geo, b) := groupFree[Group(geo, b)] + 1], free + 1)
  {
    hide ClearCount, Sum, BitAt, WithoutBit, InUse, Laid, Safe, Sized, Unmarked;
    UnmarkedCounted(geo, disk, groupFree, free, b);
    UnmarkedSafe(geo, disk, b);
    MarkedSized(geo, bs, disk, b);
  }

  /** The i_blocks count of a file of `size` bytes, in sectors of 512. */
  function Sectors(bs: nat, size: nat): (r: nat)
    requires BlockSize(bs)
    ensures size + bs <= U32 ==> size <= 512 * r < size + bs
  {
    (size + bs - 1) % U32 / bs * (bs / 512)
  }

  // ---- what a write keeps ------------------------------------------------------------------------

  /** Marking a free block and freeing it again restores the disk. */
  lemma GiveBack(geo: Geometry, disk: Disk, b: nat)
    requires Laid(geo, disk) && Safe(geo, disk) && InGroups(geo, b) && !InUse(geo, disk, b)
    ensures Laid(geo, Marked(geo, disk, b)) && InUse(geo, Marked(geo, disk, b), b)
    ensures Unmarked(geo, Marked(geo, disk, b), b) == disk
    ensures b < U32 && b !in geo.bitmaps && b < |Marked(geo, disk, b)|
  {
    hide BitAt, WithBit, WithoutBit;
    MarkedLaid(geo, disk, b);
    MarkedUse(geo, disk, b, b);
    WithoutWith(disk[geo.bitmaps[Group(geo, b)]], Index(geo, b));
    QuotientBelow(b - geo.firstData, geo.blocksPerGroup, |geo.bitmaps|);
  }

  lemma KeptSame(geo: Geometry, bs: nat, disk: Disk, slots: seq<nat>)
    requires Ready(geo, bs, disk, slots)
    ensures Kept(geo, bs, disk, slots, disk, slots)
  {
  }

  lemma MappedOwned(geo: Geometry, bs: nat, disk: Disk, slots: seq<nat>, i: nat)
    requires Ready(geo, bs, disk, slots) && Sound(geo, bs, disk, slots) && MapBlock(disk, bs, slots, i) != 0
    ensures Owned(geo, disk, MapBlock(disk, bs, slots, i))
  {
  }

  lemma StoreAll(d: seq<byte>, d': seq<byte>, off: nat, bytes: seq<byte>)
    requires off + |bytes| <= |d| == |d'| && (d == d' || (off == 0 && |bytes| == |d|))
    ensures Store(d, off, bytes) == Store(d', off, bytes)
  {
  }

  lemma {:induction false} CountedSame(geo: Geometry, disk: Disk, disk': Disk, groupFree: seq<nat>, free: nat)
    requires Laid(geo, disk) && Laid(geo, disk') && Counted(geo, disk, groupFree, free)
    requires forall g | 0 <= g < |geo.bitmaps| :: disk'[geo.bitmaps[g]] == disk[geo.bitmaps[g]]
    ensures Counted(geo, disk', groupFree, free)
  {
    hide ClearCount, Sum;
  }

  /** Data written to a block that is not a bitmap changes none of the bookkeeping. */
  lemma OverwriteConsistent(geo: Geometry, bs: nat, disk: Disk, groupFree: seq<nat>, free: nat, m: nat, data: seq<byte>)
    requires Consistent(geo, bs, disk, groupFree, free) && Owned(geo, disk, m) && |data| == bs
    ensures Consistent(geo, bs, disk[m := data], groupFree, free)
  {
    hide Counted, InUse, InGroups, ClearCount;
    OverwriteUse(geo, disk, m, data);
    CountedSame(geo, disk, disk[m := data], groupFree, free);
  }

  lemma AddedConsistent(geo: Geometry, bs: nat, disk: Disk, groupFree: seq<nat>, free: nat, b: nat, data: seq<byte>)
    requires Laid(geo, disk) && Safe(geo, disk) && InGroups(geo, b) && !InUse(geo, disk, b) && b < |disk|
    requires |data| == bs
    requires Consistent(geo, bs, Marked(geo, disk, b), groupFree, free)
    ensures Consistent(geo, bs, Added(geo, disk, b, data), groupFree, free)
  {
    hide Counted, InUse, InGroups, ClearCount, Marked, Laid, Safe, Sized;
    MarkedUse(geo, disk, b, b);
    MarkedSize(geo, disk, b);
    FreeNotBitmap(geo, disk, b);
    OverwriteConsistent(geo, bs, Marked(geo, disk, b), groupFree, free, b, data);
  }

  lemma FreeNotBitmap(geo: Geometry, disk: Disk, b: nat)
    requires Laid(geo, disk) && Safe(geo, disk) && InGroups(geo, b) && !InUse(geo, disk, b)
    ensures 0 < b && b !in geo.bitmaps
  {
    hide InUse, InGroups;
  }

  lemma KeptBoth(geo: Geometry, bs: nat, disk: Disk, slots: seq<nat>, disk1: Disk, slots1: seq<nat>, disk2: Disk,
                 slots2: seq<nat>)
    requires Ready(geo, bs, disk, slots) && Ready(geo, bs, disk1, slots1) && Ready(geo, bs, disk2, slots2)
    requires Kept(geo, bs, disk, slots, disk1, slots1) && Kept(geo, bs, disk1, slots1, disk2, slots2)
    ensures Kept(geo, bs, disk, slots, disk2, slots2)
  {
    hide Owned, IsData, Laid, Sized;
    OwnedInside(geo, disk);
  }

  lemma OwnedInside(geo: Geometry, disk: Disk)
    requires Laid(geo, disk)
    ensures forall b: nat | Owned(geo, disk, b) :: b < |disk|
  {
  }

  lemma WroteNothing(bs: nat, disk: Disk, slots: seq<nat>, offset: nat, data: seq<byte>)
    requires Sized(disk, bs) && |slots| == SLOTS
    ensures Wrote(bs, disk, slots, disk, slots, offset, data, 0)
  {
  }

  lemma TargetIs(offset: nat, n: nat)
    ensures Target(offset, n) == (offset + n) % U32
  {
  }

  /** Reading where a write went returns what was written. */
  lemma ReadBack(geo: Geometry, bs: nat, disk: Disk, slots: seq<nat>, disk': Disk, slots': seq<nat>,
                 offset: nat, data: seq<byte>, n: nat, count: nat)
    requires Sized(disk, bs) && |slots| == SLOTS && Ready(geo, bs, disk', slots') && Sound(geo, bs, disk', slots')
    requires count <= n <= |data| < U32 && offset < U32 && Wrote(bs, disk, slots, disk', slots', offset, data, n)
    ensures FileBytes(disk', bs, slots', offset, count) == data[..count]
    ensures forall i: nat :: MapBlock(disk', bs, slots', i) < |disk'| || MapBlock(disk', bs, slots', i) == 0
  {
    hide FileByte, FileBytes, MapBlock, Laid, InUse, Target, Source;
    forall k: nat | k < count
      ensures FileBytes(disk', bs, slots', offset, count)[k] == data[k]
    {
      TargetSource(offset, k);
    }
  }

  lemma TargetSource(offset: nat, k: nat)
    requires offset < U32 && k < U32
    ensures Source(Target(offset, k), offset) == k
  {
  }

  /** The data and pointer blocks of `other` are none of this file's data blocks. */
  ghost predicate Apart(bs: nat, disk: Disk, slots: seq<nat>, other: seq<nat>)
    requires Sized(disk, bs) && |slots| == SLOTS && |other| == SLOTS
  {
    && (forall i: nat :: !IsData(bs, disk, slots, MapBlock(disk, bs, other, i)))
    && (forall i: nat, b: nat {:trigger b in Consulted(disk, bs, other, i)} | b in Consulted(disk, bs, other, i) ::
          !IsData(bs, disk, slots, b))
  }

  /** A write to one file changes no byte of any other, and the other stays sound and apart. */
  lemma OtherFile(geo: Geometry, bs: nat, disk: Disk, slots: seq<nat>, disk': Disk, slots': seq<nat>, other: seq<nat>)
    requires Ready(geo, bs, disk, slots) && Ready(geo, bs, disk', slots') && Kept(geo, bs, disk, slots, disk', slots')
    requires |other| == SLOTS && Sound(geo, bs, disk, other) && Apart(bs, disk, slots, other)
    ensures forall i: nat :: FileBlock(disk', bs, other, i) == FileBlock(disk, bs, other, i)
    ensures Sound(geo, bs, disk', other) && Apart(bs, disk', slots', other)
  {
    hide MapBlock, Consulted, InUse, Laid, IsData;
    forall i: nat
      ensures MapBlock(disk', bs, other, i) == MapBlock(disk, bs, other, i)
      ensures Consulted(disk', bs, other, i) == Consulted(disk, bs, other, i)
    {
      MapFrame(disk, disk', bs, other, i);
    }
    NoDataZero(bs, disk', slots');
  }

  lemma NoDataZero(bs: nat, disk: Disk, slots: seq<nat>)
    requires Sized(disk, bs) && |slots| == SLOTS
    ensures !IsData(bs, disk, slots, 0)
  {
  }
}
