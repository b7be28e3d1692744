/** File descriptors (kernel/vfs.c) over files read from a FAT volume (kernel/fat.c). */
module Vfs {
  import opened Arith
  import opened Bytes
  import opened FatChain

  const MAX_FDS: nat := 256
  const STDIN: nat := 0
  const STDERR: nat := 2

  datatype FatFile = FatFile(first: nat, current: nat, position: nat, size: nat, isOpen: bool)

  datatype Descriptor = Descriptor(node: bool, position: nat, mode: nat)

  // ---- the cursor --------------------------------------------------------------------------------

  function ClusterAt(chain: seq<nat>, k: nat): nat {
    if k < |chain| then chain[k] else END
  }

  /** The cached cluster is the one that holds the position, or the end mark past the last cluster. */
  ghost predicate Cursor(v: Volume, f: FatFile, chain: seq<nat>)
    requires Formatted(v)
  {
    if f.size == 0 then f.position == 0
    else Chain(v, f.first, chain) && f.size <= Capacity(v, chain) < U32 && At(v, f, chain)
  }

  ghost predicate At(v: Volume, f: FatFile, chain: seq<nat>)
    requires Formatted(v)
  {
    f.position <= Capacity(v, chain) && f.current == ClusterAt(chain, Div(f.position, ClusterSize(v)))
  }

  lemma ChainStored(v: Volume, first: nat, chain: seq<nat>)
    requires Formatted(v) && Chain(v, first, chain)
    ensures Stored(v, chain)
  {
  }

  /** The cursor is past the end mark exactly when the position is at the end of the chain. */
  lemma AtEnd(v: Volume, f: FatFile, chain: seq<nat>)
    requires Formatted(v) && Chain(v, f.first, chain) && At(v, f, chain)
    ensures f.current == END <==> f.position == Capacity(v, chain)
    ensures f.current != END ==>
              Div(f.position, ClusterSize(v)) < |chain| && f.current == chain[Div(f.position, ClusterSize(v))]
  {
    hide NextCluster, Times, Div, InTable;
    DivBelow(f.position, ClusterSize(v), |chain|);
    if Div(f.position, ClusterSize(v)) < |chain| { ChainStep(v, f.first, chain, Div(f.position, ClusterSize(v))); }
  }

  /** One round of fat_read: the bytes of the file, and the cursor moved behind them. */
  lemma ReadRound(v: Volume, f: FatFile, chain: seq<nat>, n: nat)
    requires Formatted(v) && Chain(v, f.first, chain) && At(v, f, chain) && f.current != END
    requires Mod(Mod(f.position, ClusterSize(v)), SECTOR) + n <= SECTOR
    ensures InTable(v, f.current) && f.current >= 2 && Stored(v, chain) && f.position + n <= Capacity(v, chain)
    ensures var off := Mod(f.position, ClusterSize(v));
            && SectorOf(v, f.current, off) < |v.sectors| && |v.sectors[SectorOf(v, f.current, off)]| == SECTOR
            && Content(v, chain, f.position, n)
               == v.sectors[SectorOf(v, f.current, off)][Mod(off, SECTOR)..Mod(off, SECTOR) + n]
            && At(v, f.(position := f.position + n,
                        current := if off + n >= ClusterSize(v) then NextCluster(v, f.current) else f.current), chain)
  {
    hide NextCluster, Times, Div, Mod, Content, SectorOf, ClusterSize, OnDisk, Capacity;
    ChainStored(v, f.first, chain);
    AtEnd(v, f, chain);
    Advance(v, chain, f.position, n);
    SectorPiece(v, chain, f.position, n);
    ChainStep(v, f.first, chain, Div(f.position, ClusterSize(v)));
  }

  // ---- descriptors ---------------------------------------------------------------------------------

  predicate Used(bitmap: seq<nat>, fd: nat)
    requires fd / 32 < |bitmap|
  {
    TestBit(bitmap[fd / 32], fd % 32)
  }

  lemma UsedAfter(bitmap: seq<nat>, fd: nat, i: nat)
    requires fd / 32 < |bitmap| && i / 32 < |bitmap|
    ensures Used(bitmap[fd / 32 := SetBit(bitmap[fd / 32], fd % 32)], i) <==> i == fd || Used(bitmap, i)
    ensures Used(bitmap[fd / 32 := ClearBit(bitmap[fd / 32], fd % 32)], i) <==> i != fd && Used(bitmap, i)
  {
    hide TestBit, SetBit, ClearBit;
    SetBitTest(bitmap[fd / 32], fd % 32, i % 32);
    ClearBitTest(bitmap[fd / 32], fd % 32, i % 32);
  }

  /** What holds of one descriptor: its bit, its file, and a position that is never ahead of the file's own. */
  ghost predicate Consistent(v: Volume, d: Descriptor, f: FatFile, chain: seq<nat>, used: bool, fd: nat)
    requires Formatted(v)
  {
    && (used <==> fd <= STDERR || d.node) && (d.node <==> f.isOpen) && (fd <= STDERR ==> !d.node)
    && (d.node ==> d.position <= f.position && Cursor(v, f, chain))
  }

  ghost predicate Table(v: Volume, fds: seq<Descriptor>, files: seq<FatFile>, chains: seq<seq<nat>>, bitmap: seq<nat>) {
    && Formatted(v) && |fds| == |files| == |chains| == MAX_FDS && |bitmap| == MAX_FDS / 32
    && forall fd: nat | fd < MAX_FDS :: Consistent(v, fds[fd], files[fd], chains[fd], Used(bitmap, fd), fd)
  }

  lemma TableAt(v: Volume, fds: seq<Descriptor>, files: seq<FatFile>, chains: seq<seq<nat>>, bitmap: seq<nat>, fd: nat)
    requires Table(v, fds, files, chains, bitmap) && fd < MAX_FDS
    ensures Formatted(v) && Consistent(v, fds[fd], files[fd], chains[fd], Used(bitmap, fd), fd)
  {
  }

  /** A change to one descriptor. */
  lemma TableSet(v: Volume, fds: seq<Descriptor>, files: seq<FatFile>, chains: seq<seq<nat>>, bitmap: seq<nat>,
                 fd: nat, d: Descriptor, f: FatFile, chain: seq<nat>, bitmap': seq<nat>)
    requires Table(v, fds, files, chains, bitmap) && fd < MAX_FDS && |bitmap'| == |bitmap|
    requires forall i: nat | i < MAX_FDS && i != fd :: Used(bitmap', i) == Used(bitmap, i)
    requires Consistent(v, d, f, chain, Used(bitmap', fd), fd)
    ensures Table(v, fds[fd := d], files[fd := f], chains[fd := chain], bitmap')
  {
    hide Consistent, Used;
  }

  class Vfs {
    const volume: Volume
    var bitmap: seq<nat>
    var fds: seq<Descriptor>
    var files: seq<FatFile>
    ghost var chains: seq<seq<nat>>

    ghost predicate Valid()
      reads this
    {
      Table(volume, fds, files, chains, bitmap)
    }

    predicate IsOpen(fd: int)
      reads this
    {
      STDERR < fd < MAX_FDS && fd < |fds| && fds[fd].node
    }

    // ---- the FAT file behind a descriptor -----------------------------------------------------------

    /** fat_read on an open file with bytes left. */
    method FatRead(fd: nat, size: nat) returns (out: seq<byte>)
      requires Formatted(volume) && fd < |files| == |chains| && size < U32
      requires files[fd].size > 0 && Cursor(volume, files[fd], chains[fd])
      modifies `files
      ensures Stored(volume, chains[fd]) && old(files[fd]).position + |out| <= Capacity(volume, chains[fd])
      ensures out == Content(volume, chains[fd], old(files[fd]).position, |out|)
      ensures |out| == FatCount(old(files[fd]), Capacity(volume, chains[fd]), size)
      ensures |files| == |old(files)| && files == old(files)[fd := files[fd]] && Cursor(volume, files[fd], chains[fd])
      ensures files[fd] == old(files[fd]).(current := files[fd].current, position := old(files[fd]).position + |out|)
    {
      hide Chain, Times, Div, Mod, Content, SectorOf, ClusterSize, OnDisk, Capacity, NextCluster, ReadCount, At,
           Formatted;
      out := [];
      ghost var f0 := files[fd];
      ghost var chain := chains[fd];
      ChainStored(volume, f0.first, chain);
      AtPosition(volume, f0, chain);
      ContentNone(volume, chain, f0.position);
      var count := ReadCount(files[fd].size, files[fd].position, size);
      while |out| < count && files[fd].current != END
        invariant |files| == |old(files)| && files == old(files)[fd := files[fd]]
        invariant f0.position + |out| <= Capacity(volume, chain) && |out| <= count
        invariant out == Content(volume, chain, f0.position, |out|)
        invariant At(volume, files[fd], chain)
        invariant files[fd] == f0.(current := files[fd].current, position := f0.position + |out|)
        decreases count - |out|
      {
        var f := files[fd];
        var cs := ClusterSize(volume);
        Positive(volume, f.position);
        var off := Mod(f.position, cs);
        var rest := cs - off;
        var want := if count - |out| < rest then count - |out| else rest;
        var n := if want < SECTOR - Mod(off, SECTOR) then want else SECTOR - Mod(off, SECTOR);
        ReadRound(volume, f, chain, n);
        ContentSplit(volume, chain, f0.position, |out|, n);
        var sector := volume.sectors[SectorOf(volume, f.current, off)];
        out := out + sector[Mod(off, SECTOR)..Mod(off, SECTOR) + n];
        files := files[fd := f.(position := f.position + n,
                                current := if off + n >= cs then NextCluster(volume, f.current) else f.current)];
      }
      AtEnd(volume, files[fd], chain);
    }

    /** fat_seek: the position clipped to the size, and the chain walked from its start. */
    method FatSeek(fd: nat, position: nat)
      requires Formatted(volume) && fd < |files| == |chains| && Cursor(volume, files[fd], chains[fd])
      modifies `files
      ensures |files| == |old(files)| && files == old(files)[fd := files[fd]] && Cursor(volume, files[fd], chains[fd])
      ensures files[fd] == old(files[fd]).(current := files[fd].current,
                             position := if position > old(files[fd]).size then old(files[fd]).size else position)
    {
      hide Chain, Times, Div, ClusterSize, OnDisk, Capacity, NextCluster, Formatted;
      var f := files[fd];
      var pos := if position > f.size then f.size else position;
      Positive(volume, pos);
      var target := Div(pos, ClusterSize(volume));
      var current := f.first;
      if f.size == 0 {
        EmptyTarget(volume);
      } else {
        ChainFirst(volume, f.first, chains[fd]);
      }
      var i := 0;
      while i < target && current != END
        invariant i <= target && files == old(files)
        invariant f.size > 0 ==> current == ClusterAt(chains[fd], i)
        invariant f.size == 0 ==> target == 0
      {
        Inside(volume, f.first, chains[fd], i);
        current := NextCluster(volume, current);
        i := i + 1;
      }
      if f.size > 0 && i < target {
        TargetInside(volume, chains[fd], pos, i);
        ChainStep(volume, f.first, chains[fd], i);
      }
      files := files[fd := f.(position := pos, current := current)];
    }

    // ---- descriptors ---------------------------------------------------------------------------------

    constructor (volume: Volume)
      requires Formatted(volume)
      ensures Valid() && this.volume == volume && forall fd: nat | fd < MAX_FDS :: !fds[fd].node
    {
      this.volume := volume;
      bitmap := [7, 0, 0, 0, 0, 0, 0, 0];
      fds := seq(MAX_FDS, _ => Descriptor(false, 0, 0));
      files := seq(MAX_FDS, _ => FatFile(0, 0, 0, 0, false));
      chains := seq(MAX_FDS, _ => []);
      new;
      forall fd: nat | fd < MAX_FDS
        ensures Used(bitmap, fd) <==> fd <= STDERR
      {
        ReservedBits(bitmap, fd);
      }
    }

    /** vfs_alloc_fd: the lowest free descriptor. */
    method AllocFd() returns (fd: int)
      requires |bitmap| == MAX_FDS / 32
      modifies `bitmap
      ensures |bitmap| == MAX_FDS / 32 && -1 <= fd < MAX_FDS
      ensures fd == -1 ==> bitmap == old(bitmap) && forall i: nat | i < MAX_FDS :: Used(bitmap, i)
      ensures fd != -1 ==> !Used(old(bitmap), fd) && forall i: nat | i < fd :: Used(old(bitmap), i)
      ensures fd != -1 ==> forall i: nat | i < MAX_FDS :: Used(bitmap, i) <==> i == fd || Used(old(bitmap), i)
    {
      hide TestBit, SetBit, Used;
      for i := 0 to MAX_FDS
        invariant bitmap == old(bitmap) && forall j: nat | j < i :: Used(bitmap, j)
      {
        UsedIs(bitmap, i);
        if !TestBit(bitmap[i / 32], i % 32) {
          forall j: nat | j < MAX_FDS
            ensures Used(bitmap[i / 32 := SetBit(bitmap[i / 32], i % 32)], j) <==> j == i || Used(bitmap, j)
          {
            UsedAfter(bitmap, i, j);
          }
          bitmap := bitmap[i / 32 := SetBit(bitmap[i / 32], i % 32)];
          return i;
        }
      }
      fd := -1;
    }

    /** vfs_free_fd. */
    method FreeFd(fd: nat)
      requires |bitmap| == MAX_FDS / 32 && fd < MAX_FDS
      modifies `bitmap
      ensures |bitmap| == MAX_FDS / 32
      ensures forall i: nat | i < MAX_FDS :: Used(bitmap, i) <==> i != fd && Used(old(bitmap), i)
    {
      hide TestBit, ClearBit, Used;
      var next := bitmap[fd / 32 := ClearBit(bitmap[fd / 32], fd % 32)];
      forall j: nat | j < MAX_FDS
        ensures Used(next, j) <==> j != fd && Used(bitmap, j)
      {
        UsedAfter(bitmap, fd, j);
      }
      bitmap := next;
    }

    /** vfs_open; what the directory search finds is a parameter. */
    method Open(found: bool, first: nat, size: nat, mode: nat, ghost chain: seq<nat>) returns (fd: int)
      requires Valid() && size < U32
      requires found && size > 0 ==> Chain(volume, first, chain) && size <= Capacity(volume, chain) < U32
      modifies this
      ensures Valid()
      ensures fd == -1 <==> !found || forall i: nat | STDERR < i < MAX_FDS :: old(fds)[i].node
      ensures fd == -1 ==> fds == old(fds) && files == old(files) && chains == old(chains)
      ensures fd != -1 ==> STDERR < fd < MAX_FDS && !old(fds)[fd].node
      ensures fd != -1 ==>
                && fds == old(fds)[fd := Descriptor(true, 0, mode)]
                && files == old(files)[fd := FatFile(first, first, 0, size, true)]
      ensures fd != -1 ==> chains == old(chains)[fd := chain]
    {
      hide TestBit, Used, Chain, Capacity, Formatted, Cursor;
      forall i: nat | i < MAX_FDS
        ensures Used(bitmap, i) <==> i <= STDERR || fds[i].node
      {
        TableAt(volume, fds, files, chains, bitmap, i);
      }
      ghost var was := bitmap;
      fd := AllocFd();
      if fd < 0 {
        return;
      }
      if !found {
        FreeFd(fd);
        TableBits(volume, fds, files, chains, was, bitmap);
        return -1;
      }
      OpenCursor(volume, first, size, chain);
      TableSet(volume, fds, files, chains, was, fd, Descriptor(true, 0, mode), FatFile(first, first, 0, size, true),
               chain, bitmap);
      files := files[fd := FatFile(first, first, 0, size, true)];
      fds := fds[fd := Descriptor(true, 0, mode)];
      chains := chains[fd := chain];
    }

    /** vfs_close. */
    method Close(fd: int) returns (r: int)
      requires Valid()
      modifies this
      ensures Valid() && r == (if old(IsOpen(fd)) then 0 else -1)
      ensures r == -1 ==> fds == old(fds) && files == old(files)
      ensures r == 0 ==>
                && fds == old(fds)[fd := Descriptor(false, 0, 0)]
                && files == old(files)[fd := old(files)[fd].(isOpen := false)]
    {
      hide TestBit, Used, Formatted, Cursor;
      if fd < 0 || fd >= MAX_FDS || fd <= STDERR {
        return -1;
      }
      if !fds[fd].node {
        return -1;
      }
      TableAt(volume, fds, files, chains, bitmap, fd);
      ghost var was := bitmap;
      FreeFd(fd);
      TableSet(volume, fds, files, chains, was, fd, Descriptor(false, 0, 0), files[fd].(isOpen := false), chains[fd],
               bitmap);
      files := files[fd := files[fd].(isOpen := false)];
      fds := fds[fd := Descriptor(false, 0, 0)];
      chains := chains[fd := chains[fd]];
      r := 0;
    }

    /** The descriptor and the file behind it stand at the same place. */
    predicate InStep(fd: nat)
      reads this
    {
      fd < |fds| && fd < |files| && fds[fd].position == files[fd].position
    }

    /**
     vfs_read on a regular file: a slice of the file at the position, which moves
     behind it. The count is an int, and the descriptor follows a positive one only.
     */
    method Read(fd: int, size: nat) returns (n: int, out: seq<byte>)
      requires Valid() && fd != STDIN && size < U32
      modifies `fds, `files
      ensures Valid() && n == (if IsOpen(fd) then AsInt(|out|) else -1) && IsOpen(fd) == old(IsOpen(fd))
      ensures !IsOpen(fd) ==> out == [] && fds == old(fds) && files == old(files)
      ensures IsOpen(fd) ==> var f := old(files[fd]);
                && out == Slice(volume, chains[fd], f, |out|)
                && |out| == (if f.position >= f.size then 0 else FatCount(f, Capacity(volume, chains[fd]), size))
                && files == old(files)[fd := files[fd]] && fds == old(fds)[fd := fds[fd]]
                && files[fd].position == f.position + |out| && files[fd].size == f.size
                && fds[fd].position == old(fds[fd]).position + Max(n, 0)
      ensures IsOpen(fd) ==> (InStep(fd) <==> old(InStep(fd)) && |out| < INT)
    {
      hide TestBit, Used, Formatted, Capacity, FatCount, Cursor, Content;
      if fd < 0 || fd >= MAX_FDS {
        return -1, [];
      }
      if !fds[fd].node || !files[fd].isOpen {
        TableAt(volume, fds, files, chains, bitmap, fd);
        return -1, [];
      }
      TableAt(volume, fds, files, chains, bitmap, fd);
      if files[fd].position >= files[fd].size {
        SliceNone(volume, chains[fd], files[fd]);
        return 0, [];
      }
      ghost var files0 := files;
      out := FatRead(fd, size);
      FileBound(volume, files[fd], chains[fd]);
      n := AsInt(|out|);
      var d := fds[fd];
      if n > 0 {
        d := d.(position := (d.position + n) % U32);
      }
      TableSet(volume, fds, files0, chains, bitmap, fd, d, files[fd], chains[fd], bitmap);
      assert chains[fd := chains[fd]] == chains;
      fds := fds[fd := d];
    }

    /** vfs_seek; the target is computed in 32 bits and refused past the end of the file. */
    method Seek(fd: int, offset: int, whence: nat) returns (r: int)
      requires Valid() && -0x8000_0000 <= offset < 0x8000_0000
      modifies `fds, `files
      ensures Valid() && IsOpen(fd) == old(IsOpen(fd))
      ensures if !IsOpen(fd) || whence > 2 then r == -1 && fds == old(fds) && files == old(files) else
                var size := old(files[fd]).size;
                var target := SeekTarget(old(fds[fd]).position, size, offset, whence) % U32;
                if target > size then r == -1 && fds == old(fds) && files == old(files)
                else
                  && r == AsInt(target) && fds[fd].position == files[fd].position == target
                  && files[fd].size == size && fds == old(fds)[fd := fds[fd]] && files == old(files)[fd := files[fd]]
    {
      hide TestBit, Used, Formatted, Capacity, Cursor;
      if fd < 0 || fd >= MAX_FDS || fd <= STDERR {
        return -1;
      }
      TableAt(volume, fds, files, chains, bitmap, fd);
      if !fds[fd].node || !files[fd].isOpen {
        return -1;
      }
      var size := files[fd].size;
      var pos: nat := fds[fd].position;
      FileBound(volume, files[fd], chains[fd]);
      match whence {
        case 0 => pos := offset % U32;
        case 1 => pos := (pos + offset) % U32;
        case 2 => pos := (size + offset) % U32;
        case _ => return -1;
      }
      if pos > size {
        return -1;
      }
      ghost var files0 := files;
      FatSeek(fd, pos);
      var d := fds[fd].(position := pos);
      TableSet(volume, fds, files0, chains, bitmap, fd, d, files[fd], chains[fd], bitmap);
      assert chains[fd := chains[fd]] == chains;
      fds := fds[fd := d];
      r := AsInt(pos);
    }

    /**
     Reads of any sizes one after the other return one slice of the file. It is the
     slice one read of all the bytes would return, clipped at the end of the file,
     exactly when no read inside the file overflows 32 bits or the chain ends with it.
     */
    method ReadAll(fd: nat, sizes: seq<nat>) returns (out: seq<byte>)
      requires Valid() && IsOpen(fd) && forall i | 0 <= i < |sizes| :: sizes[i] < U32
      modifies `fds, `files
      ensures Valid() && IsOpen(fd) && files[fd].position == old(files[fd]).position + |out|
      ensures out == Slice(volume, chains[fd], old(files[fd]), |out|)
      ensures |out| == Min(Total(sizes, |sizes|), Rest(old(files[fd])))
              <==> Clips(old(files[fd]), Capacity(volume, chains[fd]), sizes, |sizes|)
      ensures old(InStep(fd)) && (forall i | 0 <= i < |sizes| :: sizes[i] < INT) ==> InStep(fd)
    {
      hide TestBit, Used, Capacity, Cursor, Content, Slice, Table, FatCount, Progress, Clips, Total, Rest;
      out := [];
      FileCapacity(volume, fds, files, chains, bitmap, fd);
      SliceNone(volume, chains[fd], files[fd]);
      ghost var f0 := files[fd];
      ghost var capacity := Capacity(volume, chains[fd]);
      ProgressStart(f0, capacity, sizes);
      for i := 0 to |sizes|
        invariant Valid() && IsOpen(fd) && fd < |files| && files[fd].size == f0.size
        invariant files[fd].position == f0.position + |out|
        invariant out == Slice(volume, chains[fd], f0, |out|)
        invariant Progress(f0, capacity, sizes, i, |out|)
        invariant old(InStep(fd)) && (forall j | 0 <= j < |sizes| :: sizes[j] < INT) ==> InStep(fd)
      {
        ghost var f := files[fd];
        FileCapacity(volume, fds, files, chains, bitmap, fd);
        var n, piece := Read(fd, sizes[i]);
        ProgressMore(f0, f, capacity, sizes, i, |out|);
        CountSize(f, capacity, sizes[i]);
        SliceSplit(volume, chains[fd], f0, f, |out|, |piece|);
        out := out + piece;
      }
      ProgressEnd(f0, capacity, sizes, |out|);
    }
  }

  const INT: int := 0x8000_0000

  /** A 32-bit number returned as an int. */
  function AsInt(n: int): int {
    if n < INT then n else n - U32
  }

  /**
   A read takes the descriptor along exactly when the request, the rest of the chain, or the
   rest of the file is below 2 GiB.
   */
  lemma FollowsExact(f: FatFile, capacity: nat, size: nat)
    requires size < U32 && f.position < f.size <= capacity < U32
    ensures FatCount(f, capacity, size) < INT <==>
            size < INT || capacity - f.position < INT || (Rest(f) < INT && f.position + size < U32)
  {
    if f.position + size >= U32 {
      assert (f.position + size) % U32 == f.position + size - U32;
    }
  }

  /**
   A read of 2 GiB from the start of a file of 0x9000_0000 bytes returns all of them and leaves
   the descriptor behind.
   */
  lemma FollowsExample()
    ensures var count := FatCount(FatFile(2, 2, 0, 0x9000_0000, true), 0x9000_0000, 0x8000_0000);
            count == 0x8000_0000 && AsInt(count) == -0x8000_0000
  {
  }

  lemma CountSize(f: FatFile, capacity: nat, size: nat)
    requires size < U32 && f.size <= capacity && (f.size > 0 ==> f.position <= capacity < U32)
    ensures f.position < f.size && size < INT ==> FatCount(f, capacity, size) < INT
  {
    if f.position < f.size { FollowsExact(f, capacity, size); }
  }

  /** Where a seek counts from: the start, the descriptor's position or the end. */
  function SeekBase(position: nat, size: nat, whence: nat): nat {
    if whence == 0 then 0 else if whence == 1 then position else size
  }

  function SeekTarget(position: nat, size: nat, offset: int, whence: nat): int {
    SeekBase(position, size, whence) + offset
  }

  /**
   The three bases: the target counts from the start, from the position, or back from the end,
   and is then accepted.
   */
  lemma SeekMeans(position: nat, size: nat, d: nat)
    requires d <= size < INT && position <= size
    ensures SeekTarget(position, size, d, 0) % U32 == d
    ensures SeekTarget(position, size, d - position, 1) % U32 == d
    ensures SeekTarget(position, size, 0 - d, 2) % U32 == size - d <= size
  {
  }

  lemma FileBound(v: Volume, f: FatFile, chain: seq<nat>)
    requires Formatted(v) && Cursor(v, f, chain)
    ensures f.position < U32 && f.size < U32
  {
  }

  /** The 32-bit test accepts the target exactly when it lies in the file. */
  predicate SeekRight(position: nat, size: nat, offset: int, whence: nat) {
    var target := SeekTarget(position, size, offset, whence);
    target % U32 <= size <==> 0 <= target <= size
  }

  /** One call is decided rightly exactly when the sum does not wrap or wraps to past the end. */
  lemma SeekCall(position: nat, size: nat, offset: int, whence: nat)
    requires size < U32 && position < U32 && -INT <= offset < INT && whence <= 2
    ensures var target := SeekTarget(position, size, offset, whence);
            SeekRight(position, size, offset, whence) <==> 0 <= target < U32 || target % U32 > size
  {
    SeekWraps(position, size, offset, whence);
  }

  lemma SeekWraps(position: nat, size: nat, offset: int, whence: nat)
    requires size < U32 && position < U32 && -INT <= offset < INT && whence <= 2
    ensures var t := SeekTarget(position, size, offset, whence);
            t % U32 == if t < 0 then t + U32 else if t < U32 then t else t - U32
  {
  }

  /** All offsets are decided rightly, counting from one place, exactly under this bound. */
  lemma SeekExact(position: nat, size: nat, whence: nat)
    requires size < U32 && position < U32 && whence <= 2
    ensures (forall offset: int | -INT <= offset < INT :: SeekRight(position, size, offset, whence))
            <==> SeekBase(position, size, whence) <= INT && size < SeekBase(position, size, whence) + INT
  {
    hide SeekRight;
    var base := SeekBase(position, size, whence);
    forall offset: int | -INT <= offset < INT
      ensures SeekRight(position, size, offset, whence) <==>
                (|| 0 <= base + offset < U32
                 || (base + offset < 0 && base + offset + U32 > size)
                 || (base + offset >= U32 && base + offset - U32 > size))
    {
      SeekCall(position, size, offset, whence);
      SeekWraps(position, size, offset, whence);
    }
    if base > INT {
      assert !SeekRight(position, size, U32 - base, whence);
    } else if size >= base + INT {
      assert !SeekRight(position, size, -INT, whence);
    }
  }

  /** All seeks are decided rightly exactly for a file below 2 GiB with the position at most there. */
  lemma SeekAll(position: nat, size: nat)
    requires size < U32 && position < U32
    ensures (forall whence: nat, offset: int | whence <= 2 && -INT <= offset < INT ::
              SeekRight(position, size, offset, whence))
            <==> size < INT && position <= INT
  {
    hide SeekRight;
    SeekExact(position, size, 0);
    SeekExact(position, size, 1);
    SeekExact(position, size, 2);
    assert SeekBase(position, size, 0) == 0;
  }

  /**
   Far before the start of a large file, and past the end from behind the end of the
   file, where a read of 2 GiB at the last byte ends with the descriptor still in step.
   */
  lemma SeekExamples()
    ensures !SeekRight(0, 0x9000_0000, -INT, 0)
    ensures !SeekRight(0xFFFF_F000, 0x9000_0000, 0x2000, 1)
    ensures var count := FatCount(FatFile(2, 2, 0x8FFF_FFFF, 0x9000_0000, true), 0xFFFF_F000, 0x8000_0000);
            0x8FFF_FFFF + count == 0xFFFF_F000 && count < INT
  {
  }

  /** `n` bytes of a file from its position on. */
  ghost function Slice(v: Volume, chain: seq<nat>, f: FatFile, n: nat): seq<byte>
  {
    if Stored(v, chain) && f.position + n <= Capacity(v, chain) then Content(v, chain, f.position, n) else []
  }

  lemma SliceNone(v: Volume, chain: seq<nat>, f: FatFile)
    ensures Slice(v, chain, f, 0) == []
  {
  }

  lemma ReservedBits(bitmap: seq<nat>, fd: nat)
    requires bitmap == [7, 0, 0, 0, 0, 0, 0, 0] && fd < MAX_FDS
    ensures Used(bitmap, fd) <==> fd <= STDERR
  {
    if fd >= 32 {
      NoBits(fd % 32);
    } else if fd >= 3 {
      assert TestBit(7, fd) == TestBit(3, fd - 1) == TestBit(1, fd - 2) == TestBit(0, fd - 3);
      NoBits(fd - 3);
    }
  }

  lemma UsedIs(bitmap: seq<nat>, fd: nat)
    requires fd / 32 < |bitmap|
    ensures Used(bitmap, fd) == TestBit(bitmap[fd / 32], fd % 32)
  {
  }

  lemma TableBits(v: Volume, fds: seq<Descriptor>, files: seq<FatFile>, chains: seq<seq<nat>>, bitmap: seq<nat>,
                  bitmap': seq<nat>)
    requires Table(v, fds, files, chains, bitmap) && |bitmap'| == |bitmap|
    requires forall i: nat | i < MAX_FDS :: Used(bitmap', i) == Used(bitmap, i)
    ensures Table(v, fds, files, chains, bitmap')
  {
    hide Consistent, Used;
  }

  lemma OpenCursor(v: Volume, first: nat, size: nat, chain: seq<nat>)
    requires Formatted(v) && (size > 0 ==> Chain(v, first, chain) && size <= Capacity(v, chain) < U32)
    ensures Cursor(v, FatFile(first, first, 0, size, true), chain)
  {
    hide Chain, Capacity;
    EmptyTarget(v);
    if size > 0 { ChainFirst(v, first, chain); }
  }

  lemma ChainFirst(v: Volume, first: nat, chain: seq<nat>)
    requires Formatted(v) && Chain(v, first, chain)
    ensures ClusterAt(chain, 0) == first
  {
  }

  lemma EmptyTarget(v: Volume)
    requires Formatted(v)
    ensures ClusterSize(v) > 0 && Div(0, ClusterSize(v)) == 0
  {
    hide Times, Mod;
    DivModOf(0, 0, ClusterSize(v));
    assert Times(0, ClusterSize(v)) == 0 by { ZeroTimes(ClusterSize(v)); }
  }

  lemma ZeroTimes(n: nat)
    ensures Times(0, n) == 0
  {
  }

  /** A walk that has not met the end mark is inside the chain, and one link leads to the next cluster. */
  lemma Inside(v: Volume, first: nat, chain: seq<nat>, i: nat)
    requires Formatted(v) && Chain(v, first, chain) && ClusterAt(chain, i) != END
    ensures InTable(v, ClusterAt(chain, i)) && NextCluster(v, ClusterAt(chain, i)) == ClusterAt(chain, i + 1)
  {
    hide NextCluster;
    ChainStep(v, first, chain, i);
  }

  /** The target of a seek is at most one past the last cluster. */
  lemma TargetInside(v: Volume, chain: seq<nat>, pos: nat, i: nat)
    requires Formatted(v) && pos <= Capacity(v, chain) && i < Div(pos, ClusterSize(v))
    ensures i < |chain|
  {
    hide Times, Div;
    DivBelow(pos, ClusterSize(v), i + 1);
    TimesStep(i, i + 1, ClusterSize(v));
    if |chain| <= i { TimesLess(|chain|, i, ClusterSize(v)); }
  }

  lemma TimesLess(a: nat, b: nat, n: nat)
    requires a <= b && n > 0
    ensures Times(a, n) <= Times(b, n)
  {
    Product(a, b, n);
  }

  /** How much fat_read returns: what its bound check allows, as far as the chain goes. */
  function FatCount(f: FatFile, capacity: nat, size: nat): (r: int)
  {
    var count := ReadCount(f.size, f.position, size);
    if count < capacity - f.position then count else capacity - f.position
  }

  lemma AtPosition(v: Volume, f: FatFile, chain: seq<nat>)
    requires Formatted(v) && At(v, f, chain)
    ensures f.position <= Capacity(v, chain)
  {
  }

  lemma Positive(v: Volume, pos: nat)
    requires Formatted(v)
    ensures ClusterSize(v) > 0 && Mod(pos, ClusterSize(v)) < ClusterSize(v)
    ensures Mod(Mod(pos, ClusterSize(v)), SECTOR) < SECTOR
  {
    hide Times, Mod;
    DivModJoin(pos, ClusterSize(v));
    DivModJoin(Mod(pos, ClusterSize(v)), SECTOR);
  }

  lemma ContentNone(v: Volume, chain: seq<nat>, pos: nat)
    requires Stored(v, chain) && pos <= Capacity(v, chain)
    ensures Content(v, chain, pos, 0) == []
  {
  }

  function Total(sizes: seq<nat>, n: nat): nat
    requires n <= |sizes|
  {
    if n == 0 then 0 else Total(sizes, n - 1) + sizes[n - 1]
  }

  /** The file ends inside its chain. */
  lemma FileCapacity(v: Volume, fds: seq<Descriptor>, files: seq<FatFile>, chains: seq<seq<nat>>, bitmap: seq<nat>,
                     fd: nat)
    requires Table(v, fds, files, chains, bitmap) && fd < MAX_FDS && fds[fd].node
    ensures |files| == |chains| == MAX_FDS
    ensures files[fd].position < files[fd].size ==> Stored(v, chains[fd])
    ensures files[fd].size <= Capacity(v, chains[fd])
    ensures files[fd].size == 0 ==> files[fd].position == 0
    ensures files[fd].size > 0 ==> files[fd].position <= Capacity(v, chains[fd]) < U32
  {
    hide Used, Capacity, Chain;
    var f := files[fd];
    TableAt(v, fds, files, chains, bitmap, fd);
    if f.size > 0 { ChainStored(v, f.first, chains[fd]); }
  }

  /** The bytes from the position to the end of the file. */
  function Rest(f: FatFile): nat {
    if f.position < f.size then f.size - f.position else 0
  }

  /** A read of `n` bytes at `pos` is clipped at the end of the file. */
  predicate ClipAt(pos: nat, size: nat, capacity: nat, n: nat) {
    pos >= size || pos + n < U32 || capacity == size
  }

  ghost predicate Clips(f: FatFile, capacity: nat, sizes: seq<nat>, n: nat)
    requires n <= |sizes|
  {
    forall i: nat | i < n :: ClipAt(f.position + Min(Total(sizes, i), Rest(f)), f.size, capacity, sizes[i])
  }

  lemma ClipsMore(f: FatFile, capacity: nat, sizes: seq<nat>, i: nat)
    requires i < |sizes|
    ensures Clips(f, capacity, sizes, i + 1) <==>
            Clips(f, capacity, sizes, i) &&
            ClipAt(f.position + Min(Total(sizes, i), Rest(f)), f.size, capacity, sizes[i])
  {
    hide ClipAt, Total, Rest;
  }

  /** The count of one read is the clipped one exactly then; otherwise the read goes on to the end of the chain. */
  lemma CountExact(f: FatFile, capacity: nat, size: nat)
    requires size < U32 && f.size <= capacity && (f.size > 0 ==> f.position <= capacity < U32)
    ensures var count := if f.position >= f.size then 0 else FatCount(f, capacity, size);
            && (count == Min(size, Rest(f)) <==> ClipAt(f.position, f.size, capacity, size))
            && (!ClipAt(f.position, f.size, capacity, size) ==> count == capacity - f.position > Rest(f))
  {
    if f.position < f.size { ReadCountExact(f.size, f.position, size); }
  }

  /** After `i` reads and `got` bytes: the clipped count so far, or the end of the chain. */
  ghost predicate Progress(f: FatFile, capacity: nat, sizes: seq<nat>, i: nat, got: nat)
    requires i <= |sizes|
  {
    if Clips(f, capacity, sizes, i) then got == Min(Total(sizes, i), Rest(f))
    else f.position + got == capacity && got > Rest(f)
  }

  lemma ProgressStart(f: FatFile, capacity: nat, sizes: seq<nat>)
    ensures Progress(f, capacity, sizes, 0, 0)
  {
  }

  lemma ProgressMore(f0: FatFile, f: FatFile, capacity: nat, sizes: seq<nat>, i: nat, got: nat)
    requires i < |sizes| && sizes[i] < U32 && Progress(f0, capacity, sizes, i, got)
    requires f.size == f0.size && f.position == f0.position + got
    requires f.size <= capacity && (f.size > 0 ==> f.position <= capacity < U32)
    ensures Progress(f0, capacity, sizes, i + 1,
                     got + if f.position >= f.size then 0 else FatCount(f, capacity, sizes[i]))
    ensures f.position < f.size ==> f.position + FatCount(f, capacity, sizes[i]) <= capacity
  {
    hide FatCount, Clips;
    CountFits(f, capacity, sizes[i]);
    CountExact(f, capacity, sizes[i]);
    ClipsMore(f0, capacity, sizes, i);
  }

  lemma CountFits(f: FatFile, capacity: nat, size: nat)
    ensures f.position <= capacity ==> f.position + FatCount(f, capacity, size) <= capacity
  {
  }

  lemma ProgressEnd(f: FatFile, capacity: nat, sizes: seq<nat>, got: nat)
    requires Progress(f, capacity, sizes, |sizes|, got)
    ensures got == Min(Total(sizes, |sizes|), Rest(f)) <==> Clips(f, capacity, sizes, |sizes|)
  {
    hide Clips, Total;
  }

  lemma SliceSplit(v: Volume, chain: seq<nat>, f: FatFile, g: FatFile, m: nat, n: nat)
    requires g.position == f.position + m && (n > 0 ==> Stored(v, chain) && g.position + n <= Capacity(v, chain))
    ensures Slice(v, chain, f, m) + Slice(v, chain, g, n) == Slice(v, chain, f, m + n)
  {
    hide Content, Capacity;
    if n > 0 {
      ContentSplit(v, chain, f.position, m, n);
    } else {
      SliceNone(v, chain, g);
    }
  }
}
