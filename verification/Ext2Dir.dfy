/** ext2 directories: lookup by name and insertion (kernel/ext2.c). */
module Ext2Dir {
  import opened Bytes
  import opened Ext2Bitmap
  import opened Ext2Disk
  import opened Ext2File
  import opened Ext2Fs
  import opened Ext2Map
  import opened Ext2Records

  // ---- directories -----------------------------------------------------------------------------

  /** A directory: whole blocks without holes, each tiled by records, and nothing past its size. */
  ghost predicate Directory(bs: nat, disk: Disk, slots: seq<nat>, size: nat)
    requires Sized(disk, bs) && |slots| == SLOTS
  {
    && size < U32 && size % bs == 0
    && (forall i: nat | i < size / bs :: MapBlock(disk, bs, slots, i) != 0 && Tiled(FileBlock(disk, bs, slots, i), 0))
    && (forall i: nat | i >= size / bs :: MapBlock(disk, bs, slots, i) == 0)
  }

  /** The first `n` blocks of a directory are tiled. */
  ghost predicate TiledTo(bs: nat, disk: Disk, slots: seq<nat>, n: nat)
    requires Sized(disk, bs) && |slots| == SLOTS
  {
    forall i: nat | i < n :: Tiled(FileBlock(disk, bs, slots, i), 0)
  }

  /** The live entries of the first `n` blocks, in order. */
  ghost function DirEntries(bs: nat, disk: Disk, slots: seq<nat>, n: nat): seq<Entry>
    requires Sized(disk, bs) && |slots| == SLOTS && TiledTo(bs, disk, slots, n)
  {
    if n == 0 then [] else DirEntries(bs, disk, slots, n - 1) + Entries(FileBlock(disk, bs, slots, n - 1), 0)
  }

  lemma {:induction false} EntriesSame(bs: nat, disk: Disk, slots: seq<nat>, disk': Disk, slots': seq<nat>, n: nat)
    requires Sized(disk, bs) && |slots| == SLOTS && Sized(disk', bs) && |slots'| == SLOTS && TiledTo(bs, disk, slots, n)
    requires forall j: nat | j < n :: FileBlock(disk', bs, slots', j) == FileBlock(disk, bs, slots, j)
    ensures TiledTo(bs, disk', slots', n) && DirEntries(bs, disk', slots', n) == DirEntries(bs, disk, slots, n)
  {
    hide FileBlock, Tiled, Entries;
    if n > 0 { EntriesSame(bs, disk, slots, disk', slots', n - 1); }
  }

  /** An entry put into one block is an entry put into the directory. */
  lemma {:induction false} EntriesInserted(bs: nat, disk: Disk, slots: seq<nat>, disk': Disk, slots': seq<nat>, n: nat,
                                           i: nat, e: Entry)
    requires Sized(disk, bs) && |slots| == SLOTS && Sized(disk', bs) && |slots'| == SLOTS && TiledTo(bs, disk, slots, n)
    requires i < n
    requires forall j: nat | j < n && j != i :: FileBlock(disk', bs, slots', j) == FileBlock(disk, bs, slots, j)
    requires Tiled(FileBlock(disk', bs, slots', i), 0)
    requires Inserted(Entries(FileBlock(disk, bs, slots, i), 0), Entries(FileBlock(disk', bs, slots', i), 0), e)
    ensures TiledTo(bs, disk', slots', n)
    ensures Inserted(DirEntries(bs, disk, slots, n), DirEntries(bs, disk', slots', n), e)
  {
    hide FileBlock, Tiled, Entries, Inserted;
    var a := DirEntries(bs, disk, slots, n - 1);
    var b := Entries(FileBlock(disk, bs, slots, n - 1), 0);
    if i == n - 1 {
      EntriesSame(bs, disk, slots, disk', slots', n - 1);
      var b' := Entries(FileBlock(disk', bs, slots', i), 0);
      InsertedAround(a, b, b', [], e);
      assert a + b + [] == a + b && a + b' + [] == a + b';
    } else {
      EntriesInserted(bs, disk, slots, disk', slots', n - 1, i, e);
      var a' := DirEntries(bs, disk', slots', n - 1);
      InsertedAround([], a, a', b, e);
      assert [] + a + b == a + b && [] + a' + b == a' + b;
    }
  }

  lemma {:induction false} FindTo(bs: nat, disk: Disk, slots: seq<nat>, n: nat, m: nat, name: seq<byte>)
    requires Sized(disk, bs) && |slots| == SLOTS && TiledTo(bs, disk, slots, n) && m <= n
    requires Find(DirEntries(bs, disk, slots, m), name).Present?
    ensures Find(DirEntries(bs, disk, slots, n), name) == Find(DirEntries(bs, disk, slots, m), name)
  {
    hide FileBlock, Tiled, Entries, Find;
    if m < n {
      FindTo(bs, disk, slots, n - 1, m, name);
      FindConcat(DirEntries(bs, disk, slots, n - 1), Entries(FileBlock(disk, bs, slots, n - 1), 0), name);
    }
  }

  // ---- lookup ------------------------------------------------------------------------------------

  /** The first `n` characters agree, up to a terminating NUL. */
  predicate SameText(s: seq<byte>, t: seq<byte>, n: nat)
    requires n <= |s| && n <= |t|
  {
    forall i: nat | i < n && 0 !in s[..i] :: s[i] == t[i]
  }

  /** ext2_strncmp. */
  method StrNCmp(s: seq<byte>, t: seq<byte>, n: nat) returns (r: int)
    requires n <= |s| && n <= |t|
    ensures r == 0 <==> SameText(s, t, n)
  {
    for i := 0 to n
      invariant s[..i] == t[..i] && 0 !in s[..i]
    {
      if s[i] != t[i] {
        return (s[i] as int) - (t[i] as int);
      }
      if s[i] == 0 {
        return 0;
      }
    }
    r := 0;
  }

  /** For a C string of `n` characters, that is equality. */
  lemma {:induction false} TextEqual(s: seq<byte>, t: seq<byte>, n: nat)
    requires n <= |s| && n <= |t| && 0 !in t[..n]
    ensures SameText(s, t, n) <==> s[..n] == t[..n]
  {
    if s[..n] == t[..n] {
      forall i: nat | i < n
        ensures s[i] == t[i]
      {
        assert s[..n][i] == t[..n][i];
      }
    }
    if SameText(s, t, n) && n > 0 {
      assert 0 !in t[..n - 1] by { assert forall i: nat | i < n - 1 :: t[..n - 1][i] == t[..n][i]; }
      TextEqual(s, t, n - 1);
      assert s[..n] == s[..n - 1] + [s[n - 1]] && t[..n] == t[..n - 1] + [t[n - 1]];
    }
  }

  /** The inner loop of ext2_find_entry, on any block. */
  method FindInBlock(d: seq<byte>, name: seq<byte>) returns (r: Lookup)
    requires Legible(d, 0, |name|) && 0 !in name
    ensures r == Scan(d, 0, name)
  {
    hide Load32, Load16, InodeAt, LenAt;
    var o: nat := 0;
    while o < |d|
      invariant Legible(d, o, |name|) && Scan(d, 0, name) == Scan(d, o, name)
      decreases |d| - o
    {
      if |d| - o < HEADER || LenAt(d, o) < HEADER || LenAt(d, o) > |d| - o {
        return Corrupt;
      }
      if InodeAt(d, o) != 0 && NameLenAt(d, o) == |name| {
        var c := StrNCmp(d[o + HEADER..o + HEADER + |name|], name, |name|);
        TextEqual(d[o + HEADER..o + HEADER + |name|], name, |name|);
        assert name[..|name|] == name;
        if c == 0 {
          return Present(EntryAt(d, o));
        }
      }
      o := o + LenAt(d, o);
    }
    r := Absent;
  }

  /** What a search of the blocks from `i` up to `n` finds; it ends at a hole. */
  ghost function DirScan(bs: nat, disk: Disk, slots: seq<nat>, i: nat, n: nat, name: seq<byte>): Lookup
    requires Sized(disk, bs) && |slots| == SLOTS && SlotsLegible(bs, disk, slots, n, |name|)
    decreases n - i
  {
    if i >= n then Absent
    else
      var m := MapBlock(disk, bs, slots, i);
      if m == 0 then Absent
      else if m >= |disk| then Corrupt
      else
        var r := Scan(disk[m], 0, name);
        if r.Absent? then DirScan(bs, disk, slots, i + 1, n, name) else r
  }

  /** The names compared in the blocks of the directory lie inside their blocks. */
  ghost predicate SlotsLegible(bs: nat, disk: Disk, slots: seq<nat>, n: nat, length: nat)
    requires Sized(disk, bs) && |slots| == SLOTS
  {
    forall i: nat | i < n :: var m := MapBlock(disk, bs, slots, i); 0 < m < |disk| ==> Legible(disk[m], 0, length)
  }

  /** How many blocks of a directory a search looks at. */
  function BlocksOf(bs: nat, size: nat): nat
    requires BlockSize(bs)
  {
    (size + bs - 1) / bs
  }

  /** So many blocks reach the size, and one fewer does not. */
  lemma BlocksOfLeast(bs: nat, size: nat)
    requires BlockSize(bs)
    ensures size <= BlocksOf(bs, size) * bs < size + bs
  {
  }

  /**
   ext2_find_entry on any inode: 0 and the entry, 1 if there is none of that name, -1 if it is
   no directory or corrupt.
   */
  method FindEntry(fs: FileSystem, isDir: bool, slots: seq<nat>, size: nat, name: seq<byte>) returns (r: int, e: Entry)
    requires fs.Valid() && |slots| == SLOTS && size + fs.bs <= U32 && 0 !in name
    requires SlotsLegible(fs.bs, fs.dev.disk, slots, BlocksOf(fs.bs, size), |name|)
    modifies fs.dev`entries, fs.dev`counter
    ensures fs.Valid() && (!isDir ==> r == -1)
    ensures isDir ==> DirScan(fs.bs, fs.dev.disk, slots, 0, BlocksOf(fs.bs, size), name) ==
                      if r == 0 then Present(e) else if r == 1 then Absent else Corrupt
    ensures r == -1 || r == 0 || r == 1
  {
    hide Counted, Safe, Laid, Coherent, MapBlock, Consulted, InUse, Scan, Legible, BlocksOf;
    e := Entry(0, [], 0);
    if !isDir {
      return -1, e;
    }
    ghost var disk := fs.dev.disk;
    ghost var found := DirScan(fs.bs, disk, slots, 0, BlocksOf(fs.bs, size), name);
    var n := BlocksOf(fs.bs, size);
    for i := 0 to n
      invariant fs.Valid() && DirScan(fs.bs, disk, slots, i, n, name) == found
    {
      var m := fs.GetInodeBlock(slots, i);
      if m == 0 {
        return 1, e;
      }
      var ok, d := fs.dev.Read(m);
      if !ok {
        return -1, e;
      }
      var l := FindInBlock(d, name);
      if l.Corrupt? {
        return -1, e;
      }
      if l.Present? {
        return 0, l.entry;
      }
    }
    r := 1;
  }

  /** In a directory without holes a search finds what the list of its entries holds. */
  lemma {:induction false} ScanIsFind(bs: nat, disk: Disk, slots: seq<nat>, size: nat, i: nat, name: seq<byte>)
    requires Sized(disk, bs) && |slots| == SLOTS && Directory(bs, disk, slots, size) && i <= size / bs
    requires forall j: nat :: MapBlock(disk, bs, slots, j) < |disk| || MapBlock(disk, bs, slots, j) == 0
    requires TiledTo(bs, disk, slots, size / bs) && Find(DirEntries(bs, disk, slots, i), name) == Absent
    ensures SlotsLegible(bs, disk, slots, size / bs, |name|)
    ensures DirScan(bs, disk, slots, i, size / bs, name) == Find(DirEntries(bs, disk, slots, size / bs), name)
    decreases size / bs - i
  {
    hide Tiled, Entries, Find, DirEntries, Scan, MapBlock, Legible;
    BlocksLegible(bs, disk, slots, size, |name|, name);
    if i < size / bs {
      ScanTiled(FileBlock(disk, bs, slots, i), 0, name);
      DirStep(bs, disk, slots, i, name);
      if Find(DirEntries(bs, disk, slots, i + 1), name) == Absent {
        ScanIsFind(bs, disk, slots, size, i + 1, name);
      } else {
        NeverCorrupt(DirEntries(bs, disk, slots, i + 1), name);
        FindTo(bs, disk, slots, size / bs, i + 1, name);
      }
    }
  }

  lemma BlocksLegible(bs: nat, disk: Disk, slots: seq<nat>, size: nat, n: nat, name: seq<byte>)
    requires Sized(disk, bs) && |slots| == SLOTS && Directory(bs, disk, slots, size) && n == |name|
    ensures SlotsLegible(bs, disk, slots, size / bs, n)
  {
    hide Tiled, MapBlock, Legible;
    forall i: nat | i < size / bs
      ensures var m := MapBlock(disk, bs, slots, i); 0 < m < |disk| ==> Legible(disk[m], 0, n)
    {
      ScanTiled(FileBlock(disk, bs, slots, i), 0, name);
    }
  }

  /** A directory of whole blocks is looked through block by block. */
  lemma WholeBlocks(bs: nat, size: nat)
    requires BlockSize(bs) && size % bs == 0
    ensures BlocksOf(bs, size) == size / bs
  {
  }

  lemma DirStep(bs: nat, disk: Disk, slots: seq<nat>, i: nat, name: seq<byte>)
    requires Sized(disk, bs) && |slots| == SLOTS && TiledTo(bs, disk, slots, i + 1)
    requires Find(DirEntries(bs, disk, slots, i), name) == Absent
    ensures Find(DirEntries(bs, disk, slots, i + 1), name) == Find(Entries(FileBlock(disk, bs, slots, i), 0), name)
  {
    hide FileBlock, Tiled, Entries, Find;
    FindConcat(DirEntries(bs, disk, slots, i), Entries(FileBlock(disk, bs, slots, i), 0), name);
  }

  // ---- insertion ---------------------------------------------------------------------------------

  /** The search loop of ext2_add_dir_entry: the first record that can give `need` bytes. */
  method FindRoom(d: seq<byte>, need: nat) returns (o: int)
    requires Tiled(d, 0)
    ensures o == -1 <==> !Room(d, 0, need)
    ensures o != -1 ==> 0 <= o < |d| && Reach(d, 0, o) && Tiled(d, o) && Slack(d, o) >= need
  {
    hide Record, LenAt, Slack;
    var at: nat := 0;
    while at < |d|
      invariant at <= |d| && Tiled(d, at) && Reach(d, 0, at) && Room(d, 0, need) == Room(d, at, need)
      decreases |d| - at
    {
      RecordShape(d, at);
      if Slack(d, at) >= need {
        return at;
      }
      ReachNext(d, 0, at);
      at := at + LenAt(d, at);
    }
    o := -1;
  }

  lemma {:induction false} ReachNext(d: seq<byte>, p: nat, o: nat)
    requires Tiled(d, p) && Reach(d, p, o) && o < |d| && Tiled(d, o)
    ensures Reach(d, p, o + LenAt(d, o))
    decreases |d| - p
  {
    hide LenAt;
    if p != o { ReachNext(d, p + LenAt(d, p), o); }
  }

  ghost predicate IsDir(geo: Geometry, bs: nat, disk: Disk, slots: seq<nat>, size: nat) {
    Ready(geo, bs, disk, slots) && Sound(geo, bs, disk, slots) && Directory(bs, disk, slots, size)
  }

  /** A directory before and after an entry was put in; nothing else of anybody's was touched. */
  ghost predicate EntryAdded(geo: Geometry, bs: nat, disk: Disk, slots: seq<nat>, size: nat,
                             disk': Disk, slots': seq<nat>, size': nat, e: Entry)
    requires IsDir(geo, bs, disk, slots, size) && IsDir(geo, bs, disk', slots', size')
  {
    && Kept(geo, bs, disk, slots, disk', slots')
    && Inserted(DirEntries(bs, disk, slots, size / bs), DirEntries(bs, disk', slots', size' / bs), e)
  }

  /** An entry put into a block that has room for it. */
  lemma BlockInsert(geo: Geometry, bs: nat, disk: Disk, slots: seq<nat>, size: nat, i: nat, o: nat, e: Entry)
    requires IsDir(geo, bs, disk, slots, size) && i < size / bs && e.inode != 0 && |e.name| < 0x100
    requires var d := FileBlock(disk, bs, slots, i);
             o < |d| && Reach(d, 0, o) && Tiled(d, o) && Slack(d, o) >= Need(|e.name|)
    ensures var disk' := disk[MapBlock(disk, bs, slots, i) := AddAt(FileBlock(disk, bs, slots, i), o, e)];
            IsDir(geo, bs, disk', slots, size) && EntryAdded(geo, bs, disk, slots, size, disk', slots, size, e)
  {
    hide Counted, Laid, MapBlock, Consulted, InUse, Entries, Reach, Record, Slack, AddAt, Sound, Kept, Inserted;
    var d := FileBlock(disk, bs, slots, i);
    var r := AddAt(d, o, e);
    AddAtKeeps(d, o, e);
    ChangedRecord(d, r, 0, o, e);
    OverwriteKeeps(geo, bs, disk, slots, i, r);
    MappedOwned(geo, bs, disk, slots, i);
    var disk' := disk[MapBlock(disk, bs, slots, i) := r];
    forall j: nat
      ensures MapBlock(disk', bs, slots, j) == MapBlock(disk, bs, slots, j)
    {
      OverwriteMap(geo, bs, disk, slots, i, r, j);
    }
    EntriesInserted(bs, disk, slots, disk', slots, size / bs, i, e);
  }

  /** The block a directory is extended by. */
  function FirstBlock(bs: nat, e: Entry): (d: seq<byte>)
    requires BlockSize(bs) && |e.name| < 0x100
    ensures |d| == bs
  {
    PutEntry(Zeros(bs), 0, e, bs)
  }

  lemma FirstBlockTiled(bs: nat, e: Entry)
    requires BlockSize(bs) && |e.name| < 0x100 && e.inode != 0
    ensures Tiled(FirstBlock(bs, e), 0) && Entries(FirstBlock(bs, e), 0) == [e]
  {
    hide PutEntry, Record, Live, LenAt;
    PutEntryAt(Zeros(bs), 0, e, bs);
    assert Tiled(FirstBlock(bs, e), bs) && Entries(FirstBlock(bs, e), bs) == [];
  }

  lemma OneMoreBlock(bs: nat, size: nat)
    requires BlockSize(bs) && size % bs == 0 && size / bs < DIRECT
    ensures (size + bs) / bs == size / bs + 1 && (size + bs) % bs == 0 && size + bs < U32
  {
  }

  /** A directory with one more block, which holds one entry. */
  lemma AppendedDirectory(bs: nat, disk: Disk, slots: seq<nat>, size: nat, disk': Disk, slots': seq<nat>, e: Entry)
    requires Sized(disk, bs) && |slots| == SLOTS && Directory(bs, disk, slots, size)
    requires Sized(disk', bs) && |slots'| == SLOTS && size / bs < DIRECT
    requires forall j: nat | j != size / bs :: MapBlock(disk', bs, slots', j) == MapBlock(disk, bs, slots, j)
    requires forall j: nat | j != size / bs :: FileBlock(disk', bs, slots', j) == FileBlock(disk, bs, slots, j)
    requires MapBlock(disk', bs, slots', size / bs) != 0
    requires var d := FileBlock(disk', bs, slots', size / bs); Tiled(d, 0) && Entries(d, 0) == [e]
    ensures Directory(bs, disk', slots', size + bs)
    ensures Inserted(DirEntries(bs, disk, slots, size / bs), DirEntries(bs, disk', slots', (size + bs) / bs), e)
  {
    hide MapBlock, FileBlock, Tiled, Entries, Inserted;
    OneMoreBlock(bs, size);
    EntriesSame(bs, disk, slots, disk', slots', size / bs);
    var s := DirEntries(bs, disk, slots, size / bs);
    InsertedFront(s, [], e);
    assert s + [] == s && s + [e] + [] == s + [e];
  }

  /** An entry in a block added at the end. */
  lemma BlockAppend(geo: Geometry, bs: nat, disk: Disk, slots: seq<nat>, size: nat, i: nat, b: nat, e: Entry,
                    disk': Disk, slots': seq<nat>)
    requires BlockSize(bs) && i == size / bs && i < DIRECT && i < |slots|
    requires Laid(geo, disk) && 0 < b < |disk| && InGroups(geo, b) && !InUse(geo, disk, b)
    requires e.inode != 0 && |e.name| < 0x100
    requires disk' == Added(geo, disk, b, FirstBlock(bs, e)) && slots' == slots[i := b]
    requires Safe(geo, disk) && IsDir(geo, bs, disk, slots, size)
    ensures IsDir(geo, bs, disk', slots', size + bs)
    ensures EntryAdded(geo, bs, disk, slots, size, disk', slots', size + bs, e)
  {
    hide Laid, MapBlock, FileBlock, Consulted, InUse, Entries, Tiled, Sound, Kept, Inserted, InGroups, Safe, Added,
         FirstBlock, DirEntries;
    FirstBlockTiled(bs, e);
    DirectMap(disk, bs, slots, i);
    AddedKeeps(geo, bs, disk, slots, i, b, FirstBlock(bs, e));
    forall j: nat
      ensures MapBlock(disk', bs, slots', j) == if j == i then b else MapBlock(disk, bs, slots, j)
    {
      AddedMap(geo, bs, disk, slots, i, b, FirstBlock(bs, e), j);
    }
    AppendedDirectory(bs, disk, slots, size, disk', slots', e);
  }

  /** No block of the directory has room for the entry. */
  ghost predicate Full(bs: nat, disk: Disk, slots: seq<nat>, n: nat, need: nat)
    requires Sized(disk, bs) && |slots| == SLOTS && TiledTo(bs, disk, slots, n)
  {
    forall i: nat | i < n :: !Room(FileBlock(disk, bs, slots, i), 0, need)
  }

  lemma DirTiled(geo: Geometry, bs: nat, disk: Disk, slots: seq<nat>, size: nat)
    requires IsDir(geo, bs, disk, slots, size)
    ensures TiledTo(bs, disk, slots, size / bs)
  {
    hide Laid, MapBlock, FileBlock, Sound, Tiled;
  }

  /** ext2_add_dir_entry: fails exactly when no block has room and the directory cannot grow. */
  method AddDirEntry(fs: FileSystem, inode: Inode, e: Entry) returns (r: int)
    requires fs.Valid() && IsDir(fs.geo, fs.bs, fs.dev.disk, inode.slots, inode.size) && e.inode != 0
    requires |e.name| < 0x100
    modifies fs, fs.dev, inode
    ensures fs.Valid() && IsDir(fs.geo, fs.bs, fs.dev.disk, inode.slots, inode.size) && (r == 0 || r == -1)
    ensures r == 0 ==> EntryAdded(fs.geo, fs.bs, old(fs.dev.disk), old(inode.slots), old(inode.size),
                                  fs.dev.disk, inode.slots, inode.size, e)
    ensures r == -1 ==>
              fs.dev.disk == old(fs.dev.disk) && inode.slots == old(inode.slots) && inode.size == old(inode.size)
    ensures TiledTo(fs.bs, old(fs.dev.disk), old(inode.slots), old(inode.size) / fs.bs)
    ensures r == -1 <==>
            ((old(fs.free) == 0 || old(inode.size) / fs.bs >= DIRECT) &&
             Full(fs.bs, old(fs.dev.disk), old(inode.slots), old(inode.size) / fs.bs, Need(|e.name|)))
  {
    hide Counted, Safe, Laid, Coherent, MapBlock, Consulted, InUse, Sound, Kept, Room, Reach, Tiled, Slack, Need,
         EntryAdded, Marked, InGroups;
    var need := Need(|e.name|);
    var n := inode.size / fs.bs;
    DirTiled(fs.geo, fs.bs, fs.dev.disk, inode.slots, inode.size);
    for i := 0 to n
      invariant fs.Valid() && fs.dev.disk == old(fs.dev.disk) && fs.free == old(fs.free)
      invariant inode.slots == old(inode.slots) && inode.size == old(inode.size)
      invariant forall j: nat | j < i :: !Room(FileBlock(fs.dev.disk, fs.bs, inode.slots, j), 0, need)
    {
      var m := fs.GetInodeBlock(inode.slots, i);
      MappedOwned(fs.geo, fs.bs, fs.dev.disk, inode.slots, i);
      var ok, d := fs.dev.Read(m);
      var o := FindRoom(d, need);
      if o != -1 {
        RoomRecord(d, o);
        BlockInsert(fs.geo, fs.bs, fs.dev.disk, inode.slots, inode.size, i, o, e);
        OverwriteConsistent(fs.geo, fs.bs, fs.dev.disk, fs.groupFree, fs.free, m, AddAt(d, o, e));
        ok := fs.dev.Write(m, AddAt(d, o, e));
        return 0;
      }
    }
    r := Grow(fs, inode, e);
  }

  lemma RoomRecord(d: seq<byte>, o: nat)
    requires Tiled(d, o) && o < |d|
    ensures Record(d, o)
  {
  }

  /** The end of ext2_add_dir_entry: a new block for the entry. */
  method Grow(fs: FileSystem, inode: Inode, e: Entry) returns (r: int)
    requires fs.Valid() && IsDir(fs.geo, fs.bs, fs.dev.disk, inode.slots, inode.size) && e.inode != 0
    requires |e.name| < 0x100
    modifies fs, fs.dev, inode
    ensures fs.Valid() && IsDir(fs.geo, fs.bs, fs.dev.disk, inode.slots, inode.size) && (r == 0 || r == -1)
    ensures r == 0 ==> EntryAdded(fs.geo, fs.bs, old(fs.dev.disk), old(inode.slots), old(inode.size),
                                  fs.dev.disk, inode.slots, inode.size, e)
    ensures r == -1 ==>
              fs.dev.disk == old(fs.dev.disk) && inode.slots == old(inode.slots) && inode.size == old(inode.size)
    ensures r == -1 <==> old(fs.free) == 0 || old(inode.size) / fs.bs >= DIRECT
  {
    hide Counted, Safe, Laid, Coherent, MapBlock, Consulted, InUse, Sound, Kept, Tiled, EntryAdded, Marked, InGroups,
         Directory, FirstBlock;
    ghost var disk0 := fs.dev.disk;
    ghost var slots0 := inode.slots;
    var i := inode.size / fs.bs;
    var m := fs.NewBlock(inode, i);
    if m == 0 {
      return -1;
    }
    var d := FirstBlock(fs.bs, e);
    MarkedSize(fs.geo, disk0, m);
    AddedConsistent(fs.geo, fs.bs, disk0, fs.groupFree, fs.free, m, d);
    BlockAppend(fs.geo, fs.bs, disk0, slots0, inode.size, i, m, e, Added(fs.geo, disk0, m, d), inode.slots);
    var ok := fs.dev.Write(m, d);
    inode.size := inode.size + fs.bs;
    r := 0;
  }

  /** On a directory ext2_find_entry finds the first entry of the name. */
  lemma DirScanIs(geo: Geometry, bs: nat, disk: Disk, slots: seq<nat>, size: nat, name: seq<byte>)
    requires IsDir(geo, bs, disk, slots, size)
    ensures SlotsLegible(bs, disk, slots, BlocksOf(bs, size), |name|) && TiledTo(bs, disk, slots, size / bs)
    ensures DirScan(bs, disk, slots, 0, BlocksOf(bs, size), name) == Find(DirEntries(bs, disk, slots, size / bs), name)
  {
    hide Laid, MapBlock, FileBlock, Tiled, Entries, Find, Consulted, InUse, DirScan;
    DirTiled(geo, bs, disk, slots, size);
    WholeBlocks(bs, size);
    NothingFound(bs, disk, slots, name);
    ScanIsFind(bs, disk, slots, size, 0, name);
  }

  lemma NothingFound(bs: nat, disk: Disk, slots: seq<nat>, name: seq<byte>)
    requires Sized(disk, bs) && |slots| == SLOTS
    ensures TiledTo(bs, disk, slots, 0) && Find(DirEntries(bs, disk, slots, 0), name) == Absent
  {
  }

  /** After an insertion ext2_find_entry resolves the new name to the new entry and every other name as before. */
  lemma AddedResolves(geo: Geometry, bs: nat, disk: Disk, slots: seq<nat>, size: nat,
                      disk': Disk, slots': seq<nat>, size': nat, e: Entry, name: seq<byte>)
    requires BlockSize(bs) && IsDir(geo, bs, disk, slots, size) && IsDir(geo, bs, disk', slots', size')
    requires SlotsLegible(bs, disk, slots, BlocksOf(bs, size), |name|)
    requires SlotsLegible(bs, disk, slots, BlocksOf(bs, size), |e.name|)
    requires SlotsLegible(bs, disk', slots', BlocksOf(bs, size'), |name|)
    requires EntryAdded(geo, bs, disk, slots, size, disk', slots', size', e)
    requires DirScan(bs, disk, slots, 0, BlocksOf(bs, size), e.name) == Absent
    ensures DirScan(bs, disk', slots', 0, BlocksOf(bs, size'), name) ==
            if name == e.name then Present(e) else DirScan(bs, disk, slots, 0, BlocksOf(bs, size), name)
  {
    hide Laid, MapBlock, FileBlock, Sound, Tiled, DirEntries, DirScan, Find, Kept, Inserted, SlotsLegible, Directory,
         BlocksOf;
    DirScanIs(geo, bs, disk, slots, size, name);
    DirScanIs(geo, bs, disk, slots, size, e.name);
    DirScanIs(geo, bs, disk', slots', size', name);
    InsertedFind(DirEntries(bs, disk, slots, size / bs), DirEntries(bs, disk', slots', size' / bs), e, name);
  }
}
