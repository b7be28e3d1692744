/** A mounted FAT16 or FAT32 volume: cluster chains and the bytes they hold (kernel/fat.c). */
module FatChain {
  import opened Arith
  import opened Bytes

  const SECTOR: nat := 512
  const END: nat := 0xFFFF_FFFF

  datatype Volume = Volume(fat32: bool, fatStart: nat, dataStart: nat, perCluster: nat, sectors: seq<seq<byte>>)

  predicate Formatted(v: Volume) {
    v.perCluster > 0 && forall s | 0 <= s < |v.sectors| :: |v.sectors[s]| == SECTOR
  }

  // ---- the table -------------------------------------------------------------------------------

  /** Where the table entry of a cluster is, in bytes from the start of the table. */
  function EntryOffset(v: Volume, c: nat): nat {
    if v.fat32 then 4 * c else 2 * c
  }

  predicate InTable(v: Volume, c: nat) {
    v.fatStart + EntryOffset(v, c) / SECTOR < |v.sectors|
  }

  lemma EntryFits(v: Volume, c: nat)
    ensures EntryOffset(v, c) % SECTOR + (if v.fat32 then 4 else 2) <= SECTOR
  {
  }

  /** fat_get_next_cluster for FAT16 and FAT32; entries never straddle a sector. */
  function NextCluster(v: Volume, c: nat): nat
    requires Formatted(v) && InTable(v, c)
  {
    var sector := v.sectors[v.fatStart + EntryOffset(v, c) / SECTOR];
    var at := EntryOffset(v, c) % SECTOR;
    EntryFits(v, c);
    if v.fat32 then
      var next := Load32(sector, at) % 0x1000_0000;
      if next >= 0x0FFF_FFF8 then END else next
    else
      var next := Load16(sector, at);
      if next >= 0xFFF8 then END else next
  }

  /** fat_cluster_to_sector. */
  function ClusterSector(v: Volume, c: nat): nat
    requires c >= 2
  {
    Join(c - 2, v.dataStart, v.perCluster)
  }

  predicate OnDisk(v: Volume, c: nat) {
    2 <= c < END && InTable(v, c) && ClusterSector(v, c) + v.perCluster <= |v.sectors|
  }

  /** Byte `p` of the volume, counted from its first sector. */
  predicate IsByte(v: Volume, p: nat, b: byte) {
    p / SECTOR < |v.sectors| && p % SECTOR < |v.sectors[p / SECTOR]| && v.sectors[p / SECTOR][p % SECTOR] == b
  }

  /** The table of FAT32 is an array of four-byte words, of which the low 28 bits count. */
  lemma TableEntry32(v: Volume, c: nat, w: u32)
    requires Formatted(v) && v.fat32 && InTable(v, c)
    requires forall k: nat | k < 4 :: IsByte(v, SECTOR * v.fatStart + 4 * c + k, Bytes32(w)[k])
    ensures var next := w % 0x1000_0000; NextCluster(v, c) == if next >= 0x0FFF_FFF8 then END else next
  {
    hide Load32, Bytes32;
    var sector, at := v.sectors[v.fatStart + EntryOffset(v, c) / SECTOR], EntryOffset(v, c) % SECTOR;
    EntryFits(v, c);
    forall k: nat | k < 4
      ensures sector[at + k] == Bytes32(w)[k]
    {
      InSector(v.fatStart, 4 * c, k);
      assert IsByte(v, SECTOR * v.fatStart + 4 * c + k, Bytes32(w)[k]);
    }
    assert sector[at..at + 4] == Bytes32(w);
    LoadSlice(sector, at, Bytes32(w));
  }

  /** The table of FAT16 is an array of two-byte words. */
  lemma TableEntry16(v: Volume, c: nat, w: u16)
    requires Formatted(v) && !v.fat32 && InTable(v, c)
    requires forall k: nat | k < 2 :: IsByte(v, SECTOR * v.fatStart + 2 * c + k, Bytes16(w)[k])
    ensures NextCluster(v, c) == if w >= 0xFFF8 then END else w
  {
    hide Load16, Bytes16;
    var sector, at := v.sectors[v.fatStart + EntryOffset(v, c) / SECTOR], EntryOffset(v, c) % SECTOR;
    EntryFits(v, c);
    forall k: nat | k < 2
      ensures sector[at + k] == Bytes16(w)[k]
    {
      InSector(v.fatStart, 2 * c, k);
      assert IsByte(v, SECTOR * v.fatStart + 2 * c + k, Bytes16(w)[k]);
    }
    assert sector[at..at + 2] == Bytes16(w);
    LoadSlice(sector, at, Bytes16(w));
  }

  lemma InSector(first: nat, off: nat, k: nat)
    requires off % SECTOR + k < SECTOR
    ensures (SECTOR * first + off + k) / SECTOR == first + off / SECTOR
    ensures (SECTOR * first + off + k) % SECTOR == off % SECTOR + k
  {
  }

  /** The clusters lie one after the other from the start of the data on, counted from 2. */
  lemma ClusterPlace(v: Volume, c: nat)
    requires c >= 2
    ensures ClusterSector(v, 2) == v.dataStart
    ensures ClusterSector(v, c + 1) == ClusterSector(v, c) + v.perCluster
  {
    assert (c - 1) * v.perCluster == (c - 2) * v.perCluster + v.perCluster;
  }

  /** `chain` lists the clusters from `first` up to an end mark. */
  ghost predicate Chain(v: Volume, first: nat, chain: seq<nat>)
    requires Formatted(v)
  {
    && chain != [] && chain[0] == first
    && (forall i | 0 <= i < |chain| :: OnDisk(v, chain[i]))
    && (forall i {:trigger NextCluster(v, chain[i])} | 0 <= i < |chain| ::
          NextCluster(v, chain[i]) == if i + 1 < |chain| then chain[i + 1] else END)
  }

  /** A chain that ends has no cluster twice. */
  lemma {:induction false} ChainDistinct(v: Volume, first: nat, chain: seq<nat>, i: nat, j: nat)
    requires Formatted(v) && Chain(v, first, chain) && i < j < |chain|
    ensures chain[i] != chain[j]
    decreases |chain| - j
  {
    hide NextCluster, OnDisk;
    ChainStep(v, first, chain, i);
    ChainStep(v, first, chain, j);
    if j + 1 < |chain| {
      ChainDistinct(v, first, chain, i + 1, j + 1);
    }
  }

  lemma ChainStep(v: Volume, first: nat, chain: seq<nat>, i: nat)
    requires Formatted(v) && Chain(v, first, chain) && i < |chain|
    ensures InTable(v, chain[i]) && chain[i] != END
    ensures NextCluster(v, chain[i]) == if i + 1 < |chain| then chain[i + 1] else END
    ensures i + 1 < |chain| ==> chain[i + 1] != END
  {
    hide NextCluster;
    assert OnDisk(v, chain[i]);
    assert i + 1 < |chain| ==> OnDisk(v, chain[i + 1]);
  }

  /** The table fixes the chain of a first cluster. */
  lemma {:induction false} ChainUnique(v: Volume, first: nat, a: seq<nat>, b: seq<nat>, k: nat)
    requires Formatted(v) && Chain(v, first, a) && Chain(v, first, b) && k <= |a|
    ensures k <= |b| && a[..k] == b[..k]
  {
    hide NextCluster, OnDisk;
    if k == 1 {
      assert a[..1] == [first] && b[..1] == [first];
    } else if k > 1 {
      ChainUnique(v, first, a, b, k - 1);
      assert a[k - 2] == a[..k - 1][k - 2] == b[..k - 1][k - 2] == b[k - 2];
      ChainStep(v, first, a, k - 2);
      ChainStep(v, first, b, k - 2);
      assert a[..k] == a[..k - 1] + [a[k - 1]] && b[..k] == b[..k - 1] + [b[k - 1]];
    }
  }

  // ---- the bytes ---------------------------------------------------------------------------------

  function ClusterSize(v: Volume): (r: nat)
    ensures v.perCluster > 0 ==> r > 0
  {
    Times(v.perCluster, SECTOR)
  }

  function Capacity(v: Volume, chain: seq<nat>): nat {
    Times(|chain|, ClusterSize(v))
  }

  /** The sector that holds byte `off` of cluster `c`. */
  function SectorOf(v: Volume, c: nat, off: nat): nat
    requires c >= 2
  {
    ClusterSector(v, c) + Div(off, SECTOR)
  }

  ghost predicate Stored(v: Volume, chain: seq<nat>) {
    Formatted(v) && forall i | 0 <= i < |chain| :: OnDisk(v, chain[i])
  }

  /** The byte at position `pos` of a chain. */
  ghost function ByteAt(v: Volume, chain: seq<nat>, pos: nat): byte
    requires Stored(v, chain) && pos < Capacity(v, chain)
  {
    ByteInside(v, chain, pos);
    var off := Mod(pos, ClusterSize(v));
    v.sectors[SectorOf(v, chain[Div(pos, ClusterSize(v))], off)][Mod(off, SECTOR)]
  }

  lemma ByteInside(v: Volume, chain: seq<nat>, pos: nat)
    requires Stored(v, chain) && pos < Capacity(v, chain)
    ensures ClusterSize(v) > 0 && Div(pos, ClusterSize(v)) < |chain|
    ensures Div(Mod(pos, ClusterSize(v)), SECTOR) < v.perCluster
    ensures var c := chain[Div(pos, ClusterSize(v))];
            && c >= 2 && SectorOf(v, c, Mod(pos, ClusterSize(v))) < |v.sectors|
            && Mod(Mod(pos, ClusterSize(v)), SECTOR) < SECTOR
  {
    hide Div, Mod, Times, ClusterSector, InTable;
    var cs := ClusterSize(v);
    DivModJoin(pos, cs);
    DivBelow(pos, cs, |chain|);
    DivModJoin(Mod(pos, cs), SECTOR);
    DivBelow(Mod(pos, cs), SECTOR, v.perCluster);
    assert OnDisk(v, chain[Div(pos, cs)]);
  }

  /** Byte `off` of the i-th cluster of a chain is the byte that far behind the first sector of that cluster. */
  lemma ByteFlat(v: Volume, chain: seq<nat>, i: nat, off: nat, pos: nat)
    requires Stored(v, chain) && i < |chain| && off < ClusterSize(v) && pos == Times(i, ClusterSize(v)) + off
    ensures chain[i] >= 2 && pos < Capacity(v, chain)
    ensures IsByte(v, SECTOR * ClusterSector(v, chain[i]) + off, ByteAt(v, chain, pos))
  {
    hide Div, Mod, Times, ClusterSector, InTable;
    var cs := ClusterSize(v);
    DivModOf(i, off, cs);
    DivBelow(pos, cs, |chain|);
    ByteInside(v, chain, pos);
    assert OnDisk(v, chain[i]);
    FlatByte(v, ClusterSector(v, chain[i]), off);
  }

  lemma FlatByte(v: Volume, first: nat, off: nat)
    requires Formatted(v) && first + Div(off, SECTOR) < |v.sectors|
    ensures Mod(off, SECTOR) < SECTOR
    ensures IsByte(v, SECTOR * first + off, v.sectors[first + Div(off, SECTOR)][Mod(off, SECTOR)])
  {
    InSector(first, off, 0);
  }

  /** `n` bytes from `pos` on. */
  ghost function Content(v: Volume, chain: seq<nat>, pos: nat, n: nat): (r: seq<byte>)
    requires Stored(v, chain) && pos + n <= Capacity(v, chain)
    ensures |r| == n && forall i: nat | i < n :: r[i] == ByteAt(v, chain, pos + i)
  {
    if n == 0 then [] else Content(v, chain, pos, n - 1) + [ByteAt(v, chain, pos + n - 1)]
  }

  /** Two reads in a row return what one read of both lengths returns. */
  lemma ContentSplit(v: Volume, chain: seq<nat>, pos: nat, m: nat, n: nat)
    requires Stored(v, chain) && pos + m + n <= Capacity(v, chain)
    ensures Content(v, chain, pos, m) + Content(v, chain, pos + m, n) == Content(v, chain, pos, m + n)
  {
    hide ByteAt, Content, Capacity, OnDisk;
    var a, b := Content(v, chain, pos, m), Content(v, chain, pos + m, n);
    forall i: nat | i < m + n
      ensures (a + b)[i] == ByteAt(v, chain, pos + i)
    {
      assert i >= m ==> b[i - m] == ByteAt(v, chain, pos + m + (i - m));
    }
  }

  /** Where a step of at most the rest of a sector leads. */
  lemma Advance(v: Volume, chain: seq<nat>, pos: nat, n: nat)
    requires Stored(v, chain) && pos < Capacity(v, chain) && Mod(Mod(pos, ClusterSize(v)), SECTOR) + n <= SECTOR
    ensures Mod(pos, ClusterSize(v)) + n <= ClusterSize(v) && pos + n <= Capacity(v, chain)
    ensures Div(pos + n, ClusterSize(v)) ==
            Div(pos, ClusterSize(v)) + if Mod(pos, ClusterSize(v)) + n >= ClusterSize(v) then 1 else 0
  {
    hide Div, Mod, Times;
    var cs := ClusterSize(v);
    var q, off := Div(pos, cs), Mod(pos, cs);
    ByteInside(v, chain, pos);
    DivModJoin(off, SECTOR);
    TimesStep(Div(off, SECTOR), v.perCluster, SECTOR);
    DivModJoin(pos, cs);
    TimesStep(q, |chain|, cs);
    if off + n >= cs {
      DivModOf(q + 1, 0, cs);
    } else {
      DivModOf(q, off + n, cs);
    }
  }

  /** The bytes of that step are a piece of one sector. */
  lemma SectorByte(v: Volume, chain: seq<nat>, pos: nat, n: nat, i: nat)
    requires Stored(v, chain) && pos < Capacity(v, chain) && Mod(Mod(pos, ClusterSize(v)), SECTOR) + n <= SECTOR
    requires i < n
    ensures var off := Mod(pos, ClusterSize(v)); var q := Div(pos, ClusterSize(v));
            && pos + i < Capacity(v, chain) && q < |chain| && chain[q] >= 2 && SectorOf(v, chain[q], off) < |v.sectors|
            && ByteAt(v, chain, pos + i) == v.sectors[SectorOf(v, chain[q], off)][Mod(off, SECTOR) + i]
  {
    hide Div, Mod, Times, ClusterSector, InTable, Capacity;
    var cs := ClusterSize(v);
    var q, off := Div(pos, cs), Mod(pos, cs);
    Advance(v, chain, pos, n);
    ByteInside(v, chain, pos);
    DivModJoin(pos, cs);
    DivModOf(q, off + i, cs);
    DivModJoin(off, SECTOR);
    DivModOf(Div(off, SECTOR), Mod(off, SECTOR) + i, SECTOR);
  }

  lemma SectorPiece(v: Volume, chain: seq<nat>, pos: nat, n: nat)
    requires Stored(v, chain) && pos + n <= Capacity(v, chain) && pos < Capacity(v, chain)
    requires Mod(Mod(pos, ClusterSize(v)), SECTOR) + n <= SECTOR && Div(pos, ClusterSize(v)) < |chain|
    ensures var off := Mod(pos, ClusterSize(v)); var c := chain[Div(pos, ClusterSize(v))];
            && c >= 2 && SectorOf(v, c, off) < |v.sectors| && |v.sectors[SectorOf(v, c, off)]| == SECTOR
            && Content(v, chain, pos, n) == v.sectors[SectorOf(v, c, off)][Mod(off, SECTOR)..Mod(off, SECTOR) + n]
  {
    hide Div, Mod, Times, ClusterSector, InTable, Capacity, ByteAt, SectorOf, ClusterSize, Content;
    ByteInside(v, chain, pos);
    var off := Mod(pos, ClusterSize(v));
    var sector := v.sectors[SectorOf(v, chain[Div(pos, ClusterSize(v))], off)];
    var piece, content := sector[Mod(off, SECTOR)..Mod(off, SECTOR) + n], Content(v, chain, pos, n);
    forall i: nat | i < n
      ensures piece[i] == content[i]
    {
      SectorByte(v, chain, pos, n, i);
      assert content[i] == ByteAt(v, chain, pos + i);
    }
  }
}
