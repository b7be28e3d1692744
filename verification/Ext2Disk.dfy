/**
 The block device of kernel/ext2.c behind its write-through LRU cache. Blocks
 past the end of the device cannot be read or written; all other I/O succeeds.
 */
module Ext2Disk {
  import opened Bytes

  const CACHE_SIZE: nat := 32

  datatype Cached = Cached(block: nat, lastAccess: nat, valid: bool, dirty: bool, data: seq<byte>)

  type Disk = seq<seq<byte>>

  predicate Holds(e: Cached, block: nat) {
    e.valid && e.block == block
  }

  /** At most one entry per block, every valid entry equal to the disk, none dirty, access stamps up to date. */
  ghost predicate Coherent(entries: seq<Cached>, counter: nat, disk: Disk) {
    && |entries| == CACHE_SIZE
    && (forall i | 0 <= i < CACHE_SIZE :: !entries[i].dirty && entries[i].lastAccess <= counter)
    && (forall i | 0 <= i < CACHE_SIZE && entries[i].valid ::
         entries[i].block < |disk| && entries[i].data == disk[entries[i].block])
    && (forall i, j | 0 <= i < j < CACHE_SIZE && entries[i].valid && entries[j].valid ::
          entries[i].block != entries[j].block && entries[i].lastAccess != entries[j].lastAccess)
  }

  class Device {
    var entries: seq<Cached>
    var counter: nat
    var disk: Disk

    ghost predicate Valid()
      reads this
    {
      Coherent(entries, counter, disk)
    }

    constructor (disk: Disk)
      ensures Valid() && this.disk == disk
    {
      entries := seq(CACHE_SIZE, _ => Cached(0, 0, false, false, []));
      counter := 0;
      this.disk := disk;
    }

    /** ext2_cache_find: the entry holding `block`, stamped as used; -1 if there is none. */
    method Find(block: nat) returns (i: int)
      requires Valid()
      modifies `entries, `counter
      ensures Valid()
      ensures i == -1 ==> entries == old(entries) && forall j | 0 <= j < CACHE_SIZE :: !Holds(entries[j], block)
      ensures i != -1 ==>
                0 <= i < CACHE_SIZE && Holds(entries[i], block) && entries[i].lastAccess == counter == old(counter) + 1
      ensures i != -1 ==>
                entries == old(entries)[i := entries[i]] && entries[i] == old(entries)[i].(lastAccess := counter)
    {
      i := 0;
      while i < CACHE_SIZE
        invariant 0 <= i <= CACHE_SIZE && entries == old(entries) && counter == old(counter)
        invariant forall j | 0 <= j < i :: !Holds(entries[j], block)
      {
        if entries[i].valid && entries[i].block == block {
          counter := counter + 1;
          entries := entries[i := entries[i].(lastAccess := counter)];
          return;
        }
        i := i + 1;
      }
      i := -1;
    }

    /** ext2_cache_get_free: an unused entry, or the least recently used one, which is dropped without a write-back. */
    method GetFree() returns (i: nat)
      requires Valid()
      modifies `entries
      ensures Valid() && i < CACHE_SIZE && !entries[i].valid
      ensures entries == old(entries)[i := entries[i]]
      ensures old(entries)[i].valid ==>
                forall j | 0 <= j < CACHE_SIZE ::
                  old(entries)[j].valid && old(entries)[i].lastAccess <= old(entries)[j].lastAccess
    {
      for k := 0 to CACHE_SIZE
        invariant entries == old(entries) && forall j | 0 <= j < k :: entries[j].valid
      {
        if !entries[k].valid {
          return k;
        }
      }
      i := 0;
      for k := 1 to CACHE_SIZE
        invariant i < CACHE_SIZE && forall j | 0 <= j < k :: entries[i].lastAccess <= entries[j].lastAccess
      {
        if entries[k].lastAccess < entries[i].lastAccess {
          i := k;
        }
      }
      entries := entries[i := entries[i].(valid := false, dirty := false)];
    }

    /** ext2_read_block: whatever is cached, the result is the disk's. */
    method Read(block: nat) returns (ok: bool, buffer: seq<byte>)
      requires Valid()
      modifies `entries, `counter
      ensures Valid() && (ok <==> block < |disk|)
      ensures ok ==> buffer == disk[block]
    {
      var i := Find(block);
      if i != -1 {
        return true, entries[i].data;
      }
      if block >= |disk| {
        return false, [];
      }
      buffer := disk[block];
      var e := GetFree();
      counter := counter + 1;
      entries := entries[e := Cached(block, counter, true, false, buffer)];
      ok := true;
    }

    /** ext2_write_block: writes through to the disk and refreshes a cached copy. */
    method Write(block: nat, buffer: seq<byte>) returns (ok: bool)
      requires Valid()
      modifies this
      ensures Valid() && (ok <==> block < |old(disk)|)
      ensures disk == if ok then old(disk)[block := buffer] else old(disk)
    {
      if block >= |disk| {
        return false;
      }
      var i := Find(block);
      disk := disk[block := buffer];
      if i != -1 {
        entries := entries[i := entries[i].(data := buffer, dirty := false)];
      }
      ok := true;
    }
  }
}
