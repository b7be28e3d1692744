/** The variable-length records of an ext2 directory block (kernel/ext2.c). */
module Ext2Records {
  import opened Bytes

  /** A live directory entry. */
  datatype Entry = Entry(inode: u32, name: seq<byte>, fileType: byte)

  const HEADER: nat := 8

  // ---- one record ----------------------------------------------------------------------------

  function InodeAt(d: seq<byte>, o: nat): u32
    requires o + HEADER <= |d|
  {
    Load32(d, o)
  }

  function LenAt(d: seq<byte>, o: nat): u16
    requires o + HEADER <= |d|
  {
    Load16(d, o + 4)
  }

  function NameLenAt(d: seq<byte>, o: nat): byte
    requires o + HEADER <= |d|
  {
    d[o + 6]
  }

  /** The bytes an entry needs: header and name, rounded up to a multiple of four. */
  function Need(nameLen: nat): (r: nat)
    ensures r % 4 == 0 && HEADER + nameLen <= r < HEADER + nameLen + 4
  {
    (HEADER + nameLen + 3) / 4 * 4
  }

  function EntryAt(d: seq<byte>, o: nat): Entry
    requires o + HEADER <= |d| && o + HEADER + NameLenAt(d, o) <= |d|
  {
    Entry(InodeAt(d, o), d[o + HEADER..o + HEADER + NameLenAt(d, o)], d[o + 7])
  }

  /** A record that ends inside the block and, if it is live, has room for its name. */
  predicate Record(d: seq<byte>, o: nat) {
    && o + HEADER <= |d|
    && LenAt(d, o) >= HEADER && LenAt(d, o) % 4 == 0 && o + LenAt(d, o) <= |d|
    && (InodeAt(d, o) != 0 ==> HEADER + NameLenAt(d, o) <= LenAt(d, o))
  }

  /** What a record could give away. */
  function Slack(d: seq<byte>, o: nat): nat
    requires Record(d, o)
  {
    if InodeAt(d, o) == 0 then LenAt(d, o) else LenAt(d, o) - Need(NameLenAt(d, o))
  }

  /** A record as ext2 writes it: inode number, record length, name length, file type, name. */
  lemma RecordLayout(d: seq<byte>, o: nat, inode: u32, len: u16, nameLen: byte, fileType: byte, name: seq<byte>)
    requires |name| == nameLen && o + HEADER + nameLen <= |d|
    requires d[o..o + HEADER + nameLen] == Bytes32(inode) + Bytes16(len) + [nameLen, fileType] + name
    ensures InodeAt(d, o) == inode && LenAt(d, o) == len && NameLenAt(d, o) == nameLen
    ensures EntryAt(d, o) == Entry(inode, name, fileType)
  {
    hide Load16, Load32, Bytes16, Bytes32;
    var n := HEADER + nameLen;
    var r := d[o..o + n];
    SubSlice(d, o, o + n, 0, 4);
    SubSlice(d, o, o + n, 4, 6);
    SubSlice(d, o, o + n, HEADER, n);
    assert r[0..4] == Bytes32(inode) && r[4..6] == Bytes16(len) && r[HEADER..n] == name;
    assert d[o + 6] == r[6] == nameLen && d[o + 7] == r[7] == fileType;
    LoadSlice(d, o, Bytes32(inode));
    LoadSlice(d, o + 4, Bytes16(len));
  }

  // ---- the records of a block ------------------------------------------------------------------

  /** From `o` on, records follow one another up to the end of the block. */
  ghost predicate Tiled(d: seq<byte>, o: nat)
    decreases |d| - o
  {
    o == |d| || (Record(d, o) && Tiled(d, o + LenAt(d, o)))
  }

  /** The live entry of a record, as a list. */
  function Live(d: seq<byte>, o: nat): seq<Entry>
    requires Record(d, o)
  {
    if InodeAt(d, o) == 0 then [] else [EntryAt(d, o)]
  }

  ghost function Entries(d: seq<byte>, o: nat): seq<Entry>
    requires Tiled(d, o)
    decreases |d| - o
  {
    if o == |d| then [] else Live(d, o) + Entries(d, o + LenAt(d, o))
  }

  /** Some record from `o` on has `need` bytes to give. */
  ghost predicate Room(d: seq<byte>, o: nat, need: nat)
    requires Tiled(d, o)
    decreases |d| - o
  {
    o != |d| && (Slack(d, o) >= need || Room(d, o + LenAt(d, o), need))
  }

  /** Record `o` is reached from `p`. */
  ghost predicate Reach(d: seq<byte>, p: nat, o: nat)
    requires Tiled(d, p)
    decreases |d| - p
  {
    p == o || (p != |d| && Reach(d, p + LenAt(d, p), o))
  }

  /** A dead record that is long enough, or a live one with that much behind what its own entry needs. */
  predicate Gives(d: seq<byte>, o: nat, need: nat) {
    Record(d, o) && LenAt(d, o) >= need + if InodeAt(d, o) == 0 then 0 else Need(NameLenAt(d, o))
  }

  /** There is room exactly when some record of the block gives it. */
  lemma {:induction false} RoomExact(d: seq<byte>, p: nat, need: nat)
    requires Tiled(d, p) && p <= |d|
    ensures Room(d, p, need) <==> exists o: nat :: o < |d| && Reach(d, p, o) && Gives(d, o, need)
    decreases |d| - p
  {
    hide LenAt, InodeAt, NameLenAt;
    if p != |d| {
      var next := p + LenAt(d, p);
      RoomExact(d, next, need);
      assert Slack(d, p) >= need <==> Gives(d, p, need);
      forall o: nat
        ensures Reach(d, p, o) <==> o == p || Reach(d, next, o)
      {
      }
    }
  }

  // ---- frames ------------------------------------------------------------------------------------

  predicate Agree(d: seq<byte>, d': seq<byte>, lo: nat, hi: nat) {
    |d| == |d'| && hi <= |d| && forall i | lo <= i < hi :: d[i] == d'[i]
  }

  /** A record depends on its own bytes only. */
  lemma SameRecord(d: seq<byte>, d': seq<byte>, o: nat)
    requires Record(d, o) && Agree(d, d', o, o + LenAt(d, o))
    ensures Record(d', o) && LenAt(d', o) == LenAt(d, o) && InodeAt(d', o) == InodeAt(d, o) && Live(d', o) == Live(d, o)
  {
    if InodeAt(d, o) != 0 {
      assert EntryAt(d, o) == EntryAt(d', o);
    }
  }

  lemma RecordShape(d: seq<byte>, o: nat)
    requires Record(d, o)
    ensures o + HEADER <= o + LenAt(d, o) <= |d|
  {
  }

  lemma {:induction false} SameSuffix(d: seq<byte>, d': seq<byte>, o: nat)
    requires Tiled(d, o) && o <= |d| && Agree(d, d', o, |d|)
    ensures Tiled(d', o) && Entries(d', o) == Entries(d, o)
    decreases |d| - o
  {
    hide Record, LenAt, Live;
    if o != |d| {
      RecordShape(d, o);
      SameRecord(d, d', o);
      SameSuffix(d, d', o + LenAt(d, o));
    }
  }

  // ---- inserting -----------------------------------------------------------------------------------

  /** `t` is `s` with `e` put in somewhere. */
  ghost predicate Inserted(s: seq<Entry>, t: seq<Entry>, e: Entry) {
    exists k: nat :: k <= |s| && t == s[..k] + [e] + s[k..]
  }

  lemma InsertedAround(a: seq<Entry>, s: seq<Entry>, t: seq<Entry>, b: seq<Entry>, e: Entry)
    requires Inserted(s, t, e)
    ensures Inserted(a + s + b, a + t + b, e)
  {
    var k: nat :| k <= |s| && t == s[..k] + [e] + s[k..];
    var whole := a + s + b;
    assert whole[..|a| + k] == a + s[..k];
    assert whole[|a| + k..] == s[k..] + b;
    assert a + t + b == whole[..|a| + k] + [e] + whole[|a| + k..];
  }

  lemma {:induction false} ReachBelow(d: seq<byte>, p: nat, o: nat)
    requires Tiled(d, p) && Reach(d, p, o) && p <= |d|
    ensures p <= o <= |d| && Tiled(d, o)
    decreases |d| - p
  {
    hide LenAt;
    if p != o { ReachBelow(d, p + LenAt(d, p), o); }
  }

  /** A change from record `o` on, seen from an earlier record. */
  lemma {:induction false} ChangedRecord(d: seq<byte>, d': seq<byte>, p: nat, o: nat, e: Entry)
    requires Tiled(d, p) && Reach(d, p, o) && p <= |d| && Agree(d, d', p, o)
    requires Tiled(d, o) && Tiled(d', o) && Inserted(Entries(d, o), Entries(d', o), e)
    ensures Tiled(d', p) && Inserted(Entries(d, p), Entries(d', p), e)
    decreases |d| - p
  {
    hide Record, LenAt, Live, Inserted;
    if p != o {
      RecordShape(d, p);
      var n := LenAt(d, p);
      ReachBelow(d, p + n, o);
      SameRecord(d, d', p);
      ChangedRecord(d, d', p + n, o, e);
      InsertedAround(Live(d, p), Entries(d, p + n), Entries(d', p + n), [], e);
      assert Live(d, p) + Entries(d, p + n) + [] == Entries(d, p);
      assert Live(d, p) + Entries(d', p + n) + [] == Entries(d', p);
    }
  }

  /** The bytes of a live record of length `len`. */
  function Header(e: Entry, len: u16): (h: seq<byte>)
    requires |e.name| < 0x100
    ensures |h| == HEADER + |e.name|
  {
    Bytes32(e.inode) + Bytes16(len) + [|e.name|, e.fileType] + e.name
  }

  function PutEntry(d: seq<byte>, at: nat, e: Entry, len: u16): (r: seq<byte>)
    requires |e.name| < 0x100 && at + HEADER + |e.name| <= |d|
    ensures |r| == |d|
  {
    Store(d, at, Header(e, len))
  }

  lemma PutEntryAt(d: seq<byte>, at: nat, e: Entry, len: u16)
    requires e.inode != 0 && |e.name| < 0x100 && HEADER + |e.name| <= len && len % 4 == 0 && at + len <= |d|
    ensures var r := PutEntry(d, at, e, len);
            Record(r, at) && LenAt(r, at) == len && InodeAt(r, at) == e.inode && Live(r, at) == [e]
            && Agree(d, r, 0, at) && Agree(d, r, at + len, |d|)
  {
    var r := PutEntry(d, at, e, len);
    var h := Header(e, len);
    var w, v := Bytes32(e.inode), Bytes16(len);
    assert Load32(r, at) == Load32(w, 0) by {
      assert r[at] == h[0] == w[0] && r[at + 1] == h[1] == w[1] && r[at + 2] == h[2] == w[2] &&
        r[at + 3] == h[3] == w[3];
    }
    assert Load16(r, at + 4) == Load16(v, 0) by {
      assert r[at + 4] == h[4] == v[0] && r[at + 5] == h[5] == v[1];
    }
    assert r[at + 6] == h[6] == |e.name| && r[at + 7] == h[7] == e.fileType;
    assert r[at + 8..at + 8 + |e.name|] == e.name by {
      forall i | 0 <= i < |e.name|
        ensures r[at + 8 + i] == e.name[i]
      {
        assert h[8 + i] == e.name[i];
      }
    }
  }

  /** A record shortened to what its entry needs. */
  function Shrink(d: seq<byte>, o: nat, len: u16): (r: seq<byte>)
    requires o + HEADER <= |d|
    ensures |r| == |d|
  {
    Store(d, o + 4, Bytes16(len))
  }

  lemma ShrinkAt(d: seq<byte>, o: nat)
    requires Record(d, o) && InodeAt(d, o) != 0
    ensures Need(NameLenAt(d, o)) <= LenAt(d, o)
    ensures var n := Need(NameLenAt(d, o));
            var r := Shrink(d, o, n);
            Record(r, o) && LenAt(r, o) == n && Live(r, o) == Live(d, o) && Agree(d, r, 0, o) && Agree(d, r, o + n, |d|)
  {
    var n := Need(NameLenAt(d, o));
    var r := Shrink(d, o, n);
    var v := Bytes16(n);
    assert Load16(r, o + 4) == Load16(v, 0) by { assert r[o + 4] == v[0] && r[o + 5] == v[1]; }
    assert Load32(r, o) == Load32(d, o);
    assert r[o + 8..o + 8 + NameLenAt(d, o)] == d[o + 8..o + 8 + NameLenAt(d, o)];
  }

  /** ext2_add_dir_entry inside a block: the record at `o` is split, or taken over if it is not live. */
  function AddAt(d: seq<byte>, o: nat, e: Entry): (r: seq<byte>)
    requires Record(d, o) && |e.name| < 0x100 && Slack(d, o) >= Need(|e.name|)
    ensures |r| == |d|
  {
    if InodeAt(d, o) == 0 then PutEntry(d, o, e, LenAt(d, o))
    else
      var n := Need(NameLenAt(d, o));
      PutEntry(Shrink(d, o, n), o + n, e, LenAt(d, o) - n)
  }

  lemma InsertedFront(a: seq<Entry>, b: seq<Entry>, e: Entry)
    ensures Inserted(a + b, a + [e] + b, e)
  {
    assert (a + b)[..|a|] == a && (a + b)[|a|..] == b;
  }

  /** The records still tile, and the new entry is among them. */
  lemma AddAtKeeps(d: seq<byte>, o: nat, e: Entry)
    requires Tiled(d, o) && o < |d| && e.inode != 0 && |e.name| < 0x100 && Slack(d, o) >= Need(|e.name|)
    ensures var r := AddAt(d, o, e);
            Tiled(r, o) && Inserted(Entries(d, o), Entries(r, o), e) && Agree(d, r, 0, o)
  {
    hide Record, LenAt, InodeAt, NameLenAt, Live, PutEntry, Shrink, Inserted, Need;
    SlackParts(d, o, e);
    var r := AddAt(d, o, e);
    var len := LenAt(d, o);
    var rest := Entries(d, o + len);
    if InodeAt(d, o) == 0 {
      PutEntryAt(d, o, e, len);
      SameSuffix(d, r, o + len);
      InsertedFront([], rest, e);
      assert Entries(d, o) == [] + rest && Entries(r, o) == [] + [e] + rest;
    } else {
      var n := Need(NameLenAt(d, o));
      var s := Shrink(d, o, n);
      ShrinkAt(d, o);
      PutEntryAt(s, o + n, e, len - n);
      SameRecord(s, r, o);
      SameSuffix(d, r, o + len);
      InsertedFront(Live(d, o), rest, e);
      assert Entries(r, o + n) == [e] + rest;
      assert Entries(r, o) == Live(d, o) + ([e] + rest) == Live(d, o) + [e] + rest;
    }
  }

  /** A record with enough slack. */
  lemma SlackParts(d: seq<byte>, o: nat, e: Entry)
    requires Record(d, o) && |e.name| < 0x100 && Slack(d, o) >= Need(|e.name|)
    ensures o + HEADER <= o + LenAt(d, o) <= |d| && LenAt(d, o) % 4 == 0
    ensures InodeAt(d, o) == 0 ==> HEADER + |e.name| <= LenAt(d, o) && Live(d, o) == []
    ensures InodeAt(d, o) != 0 ==>
              var n := Need(NameLenAt(d, o));
              n % 4 == 0 && 0 < n && n + HEADER + |e.name| <= LenAt(d, o)
  {
  }

  // ---- lookup --------------------------------------------------------------------------------------

  datatype Lookup = Absent | Present(entry: Entry) | Corrupt

  /** The first entry of that name. */
  function Find(s: seq<Entry>, name: seq<byte>): Lookup {
    if s == [] then Absent else if s[0].name == name then Present(s[0]) else Find(s[1..], name)
  }

  lemma {:induction false} FindConcat(s: seq<Entry>, t: seq<Entry>, name: seq<byte>)
    ensures Find(s + t, name) == if Find(s, name).Present? then Find(s, name) else Find(t, name)
  {
    if s == [] {
      assert s + t == t;
    } else {
      assert (s + t)[1..] == s[1..] + t;
      FindConcat(s[1..], t, name);
    }
  }

  lemma {:induction false} NeverCorrupt(s: seq<Entry>, name: seq<byte>)
    ensures !Find(s, name).Corrupt?
  {
    if s != [] { NeverCorrupt(s[1..], name); }
  }

  lemma FindOne(e: Entry, name: seq<byte>)
    ensures Find([e], name) == if name == e.name then Present(e) else Absent
  {
  }

  /** With a new name added, it resolves to the new entry and every other name as before. */
  lemma InsertedFind(s: seq<Entry>, t: seq<Entry>, e: Entry, name: seq<byte>)
    requires Inserted(s, t, e) && Find(s, e.name).Absent?
    ensures Find(t, name) == if name == e.name then Present(e) else Find(s, name)
  {
    hide Find;
    var k: nat :| k <= |s| && t == s[..k] + [e] + s[k..];
    assert s == s[..k] + s[k..];
    assert t == s[..k] + ([e] + s[k..]);
    FindOne(e, name);
    FindConcat(s[..k], s[k..], name);
    FindConcat(s[..k], s[k..], e.name);
    FindConcat(s[..k], [e] + s[k..], name);
    FindConcat([e], s[k..], name);
  }

  /** The validation of ext2_find_entry. */
  predicate Framed(d: seq<byte>, o: nat) {
    o + HEADER <= |d| && LenAt(d, o) >= HEADER && o + LenAt(d, o) <= |d|
  }

  /** Names that are compared lie inside the block. */
  ghost predicate Legible(d: seq<byte>, o: nat, n: nat)
    decreases |d| - o
  {
    o < |d| && Framed(d, o) ==>
      && (InodeAt(d, o) != 0 && NameLenAt(d, o) == n ==> o + HEADER + n <= |d|)
      && Legible(d, o + LenAt(d, o), n)
  }

  predicate Matches(d: seq<byte>, o: nat, name: seq<byte>)
    requires Framed(d, o) && (InodeAt(d, o) != 0 && NameLenAt(d, o) == |name| ==> o + HEADER + |name| <= |d|)
  {
    InodeAt(d, o) != 0 && NameLenAt(d, o) == |name| && d[o + HEADER..o + HEADER + |name|] == name
  }

  /** What a search of any block finds: the entry, nothing, or a record that does not fit. */
  ghost function Scan(d: seq<byte>, o: nat, name: seq<byte>): Lookup
    requires Legible(d, o, |name|)
    decreases |d| - o
  {
    if o >= |d| then Absent
    else if !Framed(d, o) then Corrupt
    else if Matches(d, o, name) then Present(EntryAt(d, o))
    else Scan(d, o + LenAt(d, o), name)
  }

  /** In a block tiled by records a search finds what the list of its entries holds. */
  lemma {:induction false} ScanTiled(d: seq<byte>, o: nat, name: seq<byte>)
    requires Tiled(d, o)
    ensures Legible(d, o, |name|) && Scan(d, o, name) == Find(Entries(d, o), name)
    decreases |d| - o
  {
    hide Load32, Load16;
    if o != |d| {
      ScanTiled(d, o + LenAt(d, o), name);
      FindConcat(Live(d, o), Entries(d, o + LenAt(d, o)), name);
    }
  }
}
