/**
 The boot loader's memory map normalisation (boot/uefi/tocinboot.c) and the
 kernel's usable-memory total (kernel/bootinfo.c).

 A UEFI map (GetMemoryMap, section 7.2 of the UEFI Specification) is filtered,
 insertion-sorted by base and coalesced in place.
 */
module BootMap {

  const U64: nat := 0x1_0000_0000_0000_0000
  const PAGE: nat := 4096

  const USABLE: nat := 1
  const RESERVED: nat := 2
  const ACPI_RECLAIMABLE: nat := 3
  const ACPI_NVS: nat := 4
  const BAD: nat := 5
  const BOOTLOADER: nat := 6

  /** The fields of an EFI_MEMORY_DESCRIPTOR that the loader reads. */
  datatype Descriptor = Descriptor(efiType: nat, start: nat, pages: nat)

  datatype Entry = Entry(base: nat, length: nat, kind: nat)

  /** efi_type_to_tocinboot. */
  function KindOf(efiType: nat): (kind: nat)
    ensures kind == USABLE <==> efiType in {3, 4, 7}
    ensures USABLE <= kind <= BOOTLOADER
  {
    match efiType
    case 7 => USABLE
    case 3 => USABLE
    case 4 => USABLE
    case 1 => BOOTLOADER
    case 2 => BOOTLOADER
    case 9 => ACPI_RECLAIMABLE
    case 10 => ACPI_NVS
    case 8 => BAD
    case _ => RESERVED
  }

  /** The table of UEFI memory types (section 7.2 of the UEFI Specification), as numbers. */
  lemma KindTable(efiType: nat)
    ensures KindOf(3) == KindOf(4) == KindOf(7) == 1
    ensures KindOf(1) == KindOf(2) == 6
    ensures KindOf(9) == 3 && KindOf(10) == 4 && KindOf(8) == 5
    ensures efiType == 0 || efiType == 5 || efiType == 6 || efiType > 10 ==> KindOf(efiType) == 2
  {
  }

  /** No descriptor runs past 2^64, and none spans all 2^64 bytes. */
  predicate Bounded(raw: seq<Descriptor>) {
    forall i | 0 <= i < |raw| :: raw[i].pages * PAGE < U64 && raw[i].start + raw[i].pages * PAGE <= U64
  }

  // ---- what a map says about memory -------------------------------------------------------

  predicate Covers(e: Entry, a: nat) {
    e.base <= a < e.base + e.length
  }

  /** How many entries put address `a` in memory of kind `k`. */
  function Count(s: seq<Entry>, a: nat, k: nat): nat {
    if s == [] then 0
    else Count(s[..|s| - 1], a, k) + if Covers(s[|s| - 1], a) && s[|s| - 1].kind == k then 1 else 0
  }

  /** How many firmware descriptors put address `a` in memory of kind `k`. */
  function RawCount(raw: seq<Descriptor>, a: nat, k: nat): nat {
    if raw == [] then 0
    else
      var d := raw[|raw| - 1];
      RawCount(raw[..|raw| - 1], a, k)
      + if d.start <= a < d.start + d.pages * PAGE && KindOf(d.efiType) == k then 1 else 0
  }

  /** Every one of the 2^64 addresses is in memory of kind `k`. */
  ghost predicate Whole(s: seq<Entry>, k: nat) {
    forall a: nat | a < U64 :: Count(s, a, k) > 0
  }

  ghost predicate RawWhole(raw: seq<Descriptor>, k: nat) {
    forall a: nat | a < U64 :: RawCount(raw, a, k) > 0
  }

  /** What normalisation needs: descriptors in bounds, and memory that is not all of one kind. */
  ghost predicate NoWrap(raw: seq<Descriptor>) {
    Bounded(raw) && forall k: nat :: !RawWhole(raw, k)
  }

  predicate Sorted(s: seq<Entry>) {
    forall i, j | 0 <= i < j < |s| :: s[i].base <= s[j].base
  }

  /** `f` continues `e`: same kind, no gap. */
  predicate Mergeable(e: Entry, f: Entry) {
    e.kind == f.kind && e.base + e.length == f.base
  }

  predicate Coalesced(s: seq<Entry>) {
    forall i | 0 <= i < |s| - 1 :: !Mergeable(s[i], s[i + 1])
  }

  predicate Sane(s: seq<Entry>) {
    forall i | 0 <= i < |s| :: 0 < s[i].length < U64 && s[i].base + s[i].length <= U64
  }

  // ---- the three passes as functions ---------------------------------------------------------

  function Convert(raw: seq<Descriptor>): seq<Entry> {
    if raw == [] then []
    else
      var d, s := raw[|raw| - 1], Convert(raw[..|raw| - 1]);
      if d.pages == 0 then s else s + [Entry(d.start, d.pages * PAGE % U64, KindOf(d.efiType))]
  }

  function Insert(s: seq<Entry>, e: Entry): seq<Entry> {
    if s == [] || s[|s| - 1].base <= e.base then s + [e]
    else Insert(s[..|s| - 1], e) + [s[|s| - 1]]
  }

  function Sort(s: seq<Entry>): (r: seq<Entry>)
    ensures |r| == |s|
  {
    if s == [] then [] else InsertLength(Sort(s[..|s| - 1]), s[|s| - 1]); Insert(Sort(s[..|s| - 1]), s[|s| - 1])
  }

  lemma {:induction false} InsertLength(s: seq<Entry>, e: Entry)
    ensures |Insert(s, e)| == |s| + 1
  {
    if s != [] { InsertLength(s[..|s| - 1], e); }
  }

  /** The C test for merging: the sum wraps at 64 bits. */
  predicate Joins(e: Entry, f: Entry) {
    e.kind == f.kind && (e.base + e.length) % U64 == f.base
  }

  function Extend(e: Entry, f: Entry): Entry {
    e.(length := (e.length + f.length) % U64)
  }

  function Coalesce(s: seq<Entry>): (r: seq<Entry>)
    ensures |r| <= |s| && (s == [] <==> r == [])
  {
    if s == [] then []
    else
      var r, e := Coalesce(s[..|s| - 1]), s[|s| - 1];
      if r != [] && Joins(r[|r| - 1], e) then r[|r| - 1 := Extend(r[|r| - 1], e)] else r + [e]
  }

  function Normal(raw: seq<Descriptor>): seq<Entry> {
    Coalesce(Sort(Convert(raw)))
  }

  // ---- every pass keeps what the map says --------------------------------------------------------

  lemma {:induction false} ConvertKeeps(raw: seq<Descriptor>, a: nat, k: nat)
    requires Bounded(raw)
    ensures Count(Convert(raw), a, k) == RawCount(raw, a, k)
  {
    if raw != [] {
      var r := raw[..|raw| - 1];
      ConvertKeeps(r, a, k);
      var d := raw[|raw| - 1];
      if d.pages != 0 {
        assert Convert(raw)[..|Convert(raw)| - 1] == Convert(r);
      }
    }
  }

  lemma {:induction false} ConvertSane(raw: seq<Descriptor>)
    requires Bounded(raw)
    ensures Sane(Convert(raw))
  {
    if raw != [] { ConvertSane(raw[..|raw| - 1]); }
  }

  lemma {:induction false} InsertKeeps(s: seq<Entry>, e: Entry, a: nat, k: nat)
    ensures Count(Insert(s, e), a, k) == Count(s, a, k) + Count([e], a, k)
  {
    var r := Insert(s, e);
    InsertLength(s, e);
    if s == [] || s[|s| - 1].base <= e.base {
      assert r[..|r| - 1] == s;
    } else {
      InsertKeeps(s[..|s| - 1], e, a, k);
      assert r[..|r| - 1] == Insert(s[..|s| - 1], e);
    }
  }

  lemma {:induction false} InsertSorted(s: seq<Entry>, e: Entry)
    requires Sorted(s)
    ensures Sorted(Insert(s, e))
    ensures var r := Insert(s, e);
            r != [] && r[|r| - 1] == if s == [] || s[|s| - 1].base <= e.base then e else s[|s| - 1]
  {
    if s != [] && s[|s| - 1].base > e.base {
      InsertSorted(s[..|s| - 1], e);
      SortedPush(Insert(s[..|s| - 1], e), s[|s| - 1]);
    } else {
      SortedPush(s, e);
    }
  }

  lemma SortedPush(s: seq<Entry>, e: Entry)
    requires Sorted(s) && (s != [] ==> s[|s| - 1].base <= e.base)
    ensures Sorted(s + [e])
  {
  }

  lemma {:induction false} InsertSane(s: seq<Entry>, e: Entry)
    requires Sane(s) && Sane([e])
    ensures Sane(Insert(s, e))
  {
    assert [e][0] == e;
    if s != [] && s[|s| - 1].base > e.base { InsertSane(s[..|s| - 1], e); }
  }

  lemma {:induction false} SortKeeps(s: seq<Entry>, a: nat, k: nat)
    ensures Count(Sort(s), a, k) == Count(s, a, k)
  {
    if s != [] {
      SortKeeps(s[..|s| - 1], a, k);
      InsertKeeps(Sort(s[..|s| - 1]), s[|s| - 1], a, k);
    }
  }

  lemma {:induction false} SortSorted(s: seq<Entry>)
    requires Sane(s)
    ensures Sorted(Sort(s)) && Sane(Sort(s))
  {
    if s != [] {
      SortSorted(s[..|s| - 1]);
      InsertSorted(Sort(s[..|s| - 1]), s[|s| - 1]);
      InsertSane(Sort(s[..|s| - 1]), s[|s| - 1]);
    }
  }

  /** In a sorted map the wrapping test finds the neighbours; the length wraps only when they are all of memory. */
  lemma JoinMerges(e: Entry, f: Entry)
    requires Sane([e, f]) && e.base <= f.base
    ensures Joins(e, f) <==> Mergeable(e, f)
    ensures Joins(e, f) && e.length + f.length < U64 ==>
              Extend(e, f) == Entry(e.base, e.length + f.length, e.kind) && Sane([Extend(e, f)])
    ensures Joins(e, f) && e.length + f.length >= U64 ==>
              e.base == 0 && f.base + f.length == U64 && Extend(e, f) == Entry(0, 0, e.kind)
  {
    assert [e, f][0] == e && [e, f][1] == f;
  }

  /** One step of the pass: append the entry, or grow the last one. */
  lemma CoalesceStep(r: seq<Entry>, e: Entry)
    requires Sorted(r) && Sane(r) && Coalesced(r) && Sane([e]) && (r != [] ==> r[|r| - 1].base <= e.base)
    requires r != [] && Joins(r[|r| - 1], e) ==> r[|r| - 1].length + e.length < U64
    ensures var t := if r != [] && Joins(r[|r| - 1], e) then r[|r| - 1 := Extend(r[|r| - 1], e)] else r + [e];
            Sorted(t) && Sane(t) && Coalesced(t) && t[|t| - 1].base <= e.base
  {
    hide Joins, Extend;
    assert [e][0] == e;
    if r != [] {
      JoinMerges(r[|r| - 1], e);
      if Joins(r[|r| - 1], e) {
        var t := r[|r| - 1 := Extend(r[|r| - 1], e)];
        assert [Extend(r[|r| - 1], e)][0] == t[|t| - 1];
        assert forall i | 0 <= i < |r| :: t[i].base == r[i].base && t[i].kind == r[i].kind;
      } else {
        SortedPush(r, e);
      }
    }
  }

  /** The pass over `s` went well: same memory; sorted; nothing left to merge. */
  ghost predicate Merged(s: seq<Entry>) {
    var r := Coalesce(s);
    && Sorted(r) && Sane(r) && Coalesced(r) && SameMemory(r, s)
    && (s != [] ==> r[|r| - 1].base <= s[|s| - 1].base)
  }

  /** When the length wraps, the last entry and the next one are all of memory. */
  lemma WrapsWhole(p: seq<Entry>, e: Entry, r: seq<Entry>)
    requires r != [] && Sane(r) && Sane([e]) && SameMemory(r, p) && r[|r| - 1].base <= e.base
    requires Joins(r[|r| - 1], e) && r[|r| - 1].length + e.length >= U64
    ensures Whole(p + [e], e.kind) && r[|r| - 1].base == 0 && 0 < e.base && e.base + e.length == U64
    ensures r[|r| - 1].kind == e.kind && Extend(r[|r| - 1], e) == Entry(0, 0, e.kind)
  {
    hide Count, Joins, Extend;
    var last := r[|r| - 1];
    assert [e][0] == e;
    JoinMerges(last, e);
    forall a: nat | a < U64
      ensures Count(p + [e], a, e.kind) > 0
    {
      CountLast(p, e, a, e.kind);
      if a < e.base {
        CountAtLeast(r, a, |r| - 1);
        assert Count(r, a, e.kind) == Count(p, a, e.kind);
      }
    }
  }

  lemma CountLast(s: seq<Entry>, e: Entry, a: nat, k: nat)
    ensures Count(s + [e], a, k) == Count(s, a, k) + if Covers(e, a) && e.kind == k then 1 else 0
  {
    assert (s + [e])[..|s|] == s;
  }

  /** One step keeps the memory. */
  lemma StepMemory(p: seq<Entry>, e: Entry, r: seq<Entry>)
    requires Sane(r) && Sane([e]) && SameMemory(r, p) && (r != [] ==> r[|r| - 1].base <= e.base)
    requires r != [] && Joins(r[|r| - 1], e) ==> r[|r| - 1].length + e.length < U64
    ensures var t := if r != [] && Joins(r[|r| - 1], e) then r[|r| - 1 := Extend(r[|r| - 1], e)] else r + [e];
            SameMemory(t, p + [e])
  {
    hide Count, Joins, Extend;
    var t := if r != [] && Joins(r[|r| - 1], e) then r[|r| - 1 := Extend(r[|r| - 1], e)] else r + [e];
    assert [e][0] == e;
    if r != [] { JoinMerges(r[|r| - 1], e); }
    forall a: nat, k: nat
      ensures Count(t, a, k) == Count(p + [e], a, k)
    {
      CountLast(p, e, a, k);
      assert Count(r, a, k) == Count(p, a, k);
      if r != [] && Joins(r[|r| - 1], e) {
        var q := r[..|r| - 1];
        assert r == q + [r[|r| - 1]] && t == q + [Extend(r[|r| - 1], e)];
        CountLast(q, r[|r| - 1], a, k);
        CountLast(q, Extend(r[|r| - 1], e), a, k);
      } else {
        CountLast(r, e, a, k);
      }
    }
  }

  lemma WholeMore(p: seq<Entry>, e: Entry, k: nat)
    requires Whole(p, k)
    ensures Whole(p + [e], k)
  {
    forall a: nat | a < U64
      ensures Count(p + [e], a, k) > 0
    {
      CountLast(p, e, a, k);
    }
  }

  /** Unless memory is all of one kind, coalescing keeps it, keeps it sorted, and leaves nothing to merge. */
  lemma {:induction false} CoalesceKeeps(s: seq<Entry>)
    requires Sorted(s) && Sane(s) && forall k: nat :: !Whole(s, k)
    ensures Merged(s)
  {
    hide Coalesced, Count, Whole, Merged, Lost, Sorted, Coalesce;
    if s == [] {
      MergedNothing();
    } else {
      var p, e := s[..|s| - 1], s[|s| - 1];
      assert s == p + [e];
      SortedPrefix(s);
      forall k: nat
        ensures !Whole(p, k)
      {
        if Whole(p, k) { WholeMore(p, e, k); }
      }
      CoalesceKeeps(p);
      MergedStep(p, e);
    }
  }

  lemma NothingToMerge()
    ensures Coalesced([]) && SameMemory([], [])
  {
  }

  lemma SortedPrefix(s: seq<Entry>)
    requires Sorted(s) && s != []
    ensures Sorted(s[..|s| - 1]) && (|s| > 1 ==> s[|s| - 2].base <= s[|s| - 1].base)
  {
  }

  lemma ConvertWhole(raw: seq<Descriptor>, k: nat)
    requires Bounded(raw)
    ensures Whole(Sort(Convert(raw)), k) <==> RawWhole(raw, k)
  {
    hide Count, RawCount, Sort, Convert;
    forall a: nat
      ensures Count(Sort(Convert(raw)), a, k) == RawCount(raw, a, k)
    {
      ConvertKeeps(raw, a, k);
      SortKeeps(Convert(raw), a, k);
    }
  }

  /** The normalised map: same memory of every kind, with multiplicity; sorted; nothing left to merge. */
  lemma Normalised(raw: seq<Descriptor>)
    requires NoWrap(raw)
    ensures Sorted(Normal(raw)) && Sane(Normal(raw)) && Coalesced(Normal(raw))
    ensures forall a: nat, k: nat :: Count(Normal(raw), a, k) == RawCount(raw, a, k)
  {
    ConvertSane(raw);
    SortSorted(Convert(raw));
    forall k: nat
      ensures !Whole(Sort(Convert(raw)), k)
    {
      ConvertWhole(raw, k);
    }
    CoalesceKeeps(Sort(Convert(raw)));
    forall a: nat, k: nat
      ensures Count(Normal(raw), a, k) == RawCount(raw, a, k)
    {
      ConvertKeeps(raw, a, k);
      SortKeeps(Convert(raw), a, k);
    }
  }

  // ---- exactly when memory is kept -----------------------------------------------------------------

  const LAST: nat := U64 - 1

  /** The pass over `s` lost the last address of kind `k`, and no later step can bring it back. */
  ghost predicate Lost(s: seq<Entry>, k: nat) {
    var r := Coalesce(s);
    && s != [] && 0 < s[|s| - 1].base && Count(r, LAST, k) < Count(s, LAST, k)
    && var last := r[|r| - 1];
       last.base <= s[|s| - 1].base && if last.base == 0 then last.length == 0 else Sane([last])
  }

  /** The first step that wraps. */
  lemma LostFirst(p: seq<Entry>, e: Entry)
    requires Merged(p) && Sane([e]) && p != [] && p[|p| - 1].base <= e.base
    requires var r := Coalesce(p); Joins(r[|r| - 1], e) && r[|r| - 1].length + e.length >= U64
    ensures Lost(p + [e], e.kind)
  {
    hide Count, Joins, Extend;
    var r := Coalesce(p);
    WrapsWhole(p, e, r);
    CoalesceLast(p, e);
    var q, last := r[..|r| - 1], r[|r| - 1];
    assert r == q + [last] && Coalesce(p + [e]) == q + [Extend(last, e)];
    CountLast(q, last, LAST, e.kind);
    CountLast(q, Extend(last, e), LAST, e.kind);
    CountLast(p, e, LAST, e.kind);
    assert Count(r, LAST, e.kind) == Count(p, LAST, e.kind);
  }

  lemma CoalesceLast(p: seq<Entry>, e: Entry)
    ensures var r := Coalesce(p);
            Coalesce(p + [e]) ==
            if r != [] && Joins(r[|r| - 1], e) then r[|r| - 1 := Extend(r[|r| - 1], e)] else r + [e]
  {
    assert (p + [e])[..|p|] == p;
  }

  /** What is lost stays lost. */
  lemma LostMore(p: seq<Entry>, e: Entry, k: nat)
    requires Lost(p, k) && Sane([e]) && p[|p| - 1].base <= e.base
    ensures Lost(p + [e], k)
  {
    hide Count, Joins, Extend;
    var r := Coalesce(p);
    var q, last := r[..|r| - 1], r[|r| - 1];
    assert [e][0] == e && [last][0] == last && r == q + [last];
    CoalesceLast(p, e);
    CountLast(p, e, LAST, k);
    if Joins(last, e) {
      JoinsLater(last, e);
      JoinMerges(last, e);
      assert Coalesce(p + [e]) == q + [Extend(last, e)];
      CountLast(q, last, LAST, k);
      CountLast(q, Extend(last, e), LAST, k);
    } else {
      CountLast(r, e, LAST, k);
    }
  }

  lemma JoinsLater(e: Entry, f: Entry)
    requires Joins(e, f) && 0 < f.base && (e.base == 0 ==> e.length == 0)
    ensures 0 < e.base
  {
  }

  /** Either the pass goes well, or it loses memory. */
  lemma {:induction false} CoalesceEither(s: seq<Entry>)
    requires Sorted(s) && Sane(s)
    ensures Merged(s) || exists k: nat :: Lost(s, k)
  {
    hide Joins, Extend, Coalesced, Count, Merged, Lost, Sorted;
    if s == [] {
      MergedNothing();
    } else {
      var p, e := s[..|s| - 1], s[|s| - 1];
      assert s == p + [e];
      SortedPrefix(s);
      CoalesceEither(p);
      if Merged(p) {
        MergedStep(p, e);
      } else {
        var k: nat :| Lost(p, k);
        LostNonempty(p, k);
        LostMore(p, e, k);
      }
    }
  }

  lemma MergedNothing()
    ensures Merged([])
  {
    NothingToMerge();
  }

  lemma LostNonempty(p: seq<Entry>, k: nat)
    requires Lost(p, k)
    ensures p != []
  {
  }

  lemma MergedStep(p: seq<Entry>, e: Entry)
    requires Merged(p) && Sane([e]) && (p != [] ==> p[|p| - 1].base <= e.base)
    ensures Merged(p + [e]) || (Lost(p + [e], e.kind) && Whole(p + [e], e.kind))
  {
    hide Joins, Extend, Coalesced, Count, Lost;
    var r := Coalesce(p);
    if r != [] && Joins(r[|r| - 1], e) && r[|r| - 1].length + e.length >= U64 {
      LostFirst(p, e);
      WrapsWhole(p, e, r);
    } else {
      CoalesceLast(p, e);
      CoalesceStep(r, e);
      StepMemory(p, e, r);
    }
  }

  /** A proper map cannot be all of one kind: it would be one entry of 2^64 bytes. */
  lemma ProperNotWhole(s: seq<Entry>, k: nat)
    requires Proper(s)
    ensures !Whole(s, k)
  {
    hide Count;
    if Whole(s, k) {
      var i := CountWitness(s, 0, k);
      LowestIsFirst(s, i);
      var j := CountWitness(s, s[0].length, k);
      NextIsSecond(s, j);
    }
  }

  lemma LowestIsFirst(s: seq<Entry>, i: nat)
    requires Disjoint(s) && Sane(s) && i < |s| && s[i].base == 0
    ensures i == 0
  {
    assert forall l | 0 < l < |s| :: s[0].base + s[0].length <= s[l].base;
  }

  lemma NextIsSecond(s: seq<Entry>, j: nat)
    requires Disjoint(s) && Sane(s) && j < |s| && s[0].base == 0 && Covers(s[j], s[0].length)
    ensures j == 1 && s[1].base == s[0].length
  {
    assert 1 < |s| ==> s[0].length <= s[1].base;
    assert forall l | 1 < l < |s| :: s[1].base + s[1].length <= s[l].base;
  }

  /** Normalisation puts every address in memory of every kind as often as the firmware does. */
  ghost predicate Kept(raw: seq<Descriptor>) {
    forall a: nat, k: nat :: Count(Normal(raw), a, k) == RawCount(raw, a, k)
  }

  /** Memory described once is kept by normalisation exactly when it is not all of one kind. */
  lemma KeptExact(raw: seq<Descriptor>)
    requires Bounded(raw) && DescribedOnce(raw)
    ensures Kept(raw) <==> forall k: nat :: !RawWhole(raw, k)
  {
    hide Count, RawCount, Coalesced, Sort, Convert, Coalesce;
    if forall k: nat :: !RawWhole(raw, k) {
      Normalised(raw);
    } else {
      var k: nat :| RawWhole(raw, k);
      if Kept(raw) {
        KeptProper(raw);
        assert Whole(Normal(raw), k) by {
          forall a: nat | a < U64 ensures Count(Normal(raw), a, k) > 0 { assert RawCount(raw, a, k) > 0; }
        }
        ProperNotWhole(Normal(raw), k);
      }
    }
  }

  lemma KeptProper(raw: seq<Descriptor>)
    requires Bounded(raw) && DescribedOnce(raw) && Kept(raw)
    ensures Proper(Normal(raw))
  {
    hide Count, RawCount, Coalesced, Sort, Convert, Coalesce;
    ConvertSane(raw);
    SortSorted(Convert(raw));
    CoalesceEither(Sort(Convert(raw)));
    NotLost(raw);
    SortedOnceDisjoint(Normal(raw));
  }

  lemma NotLost(raw: seq<Descriptor>)
    requires Bounded(raw) && Kept(raw)
    ensures forall k: nat :: !Lost(Sort(Convert(raw)), k)
  {
    hide Count, RawCount;
    forall k: nat
      ensures !Lost(Sort(Convert(raw)), k)
    {
      ConvertKeeps(raw, LAST, k);
      SortKeeps(Convert(raw), LAST, k);
      assert Count(Normal(raw), LAST, k) == RawCount(raw, LAST, k);
    }
  }

  /** Two halves of one kind: merged, their length wraps to 0. */
  lemma KeptExample(e: Entry, f: Entry)
    requires e == Entry(0, 0x8000_0000_0000_0000, USABLE)
    requires f == Entry(0x8000_0000_0000_0000, 0x8000_0000_0000_0000, USABLE)
    ensures Coalesce([e, f]) == [Entry(0, 0, USABLE)]
  {
    hide Coalesce;
    assert Coalesce([e]) == [e] by { CoalesceOne(e); }
    CoalesceLast([e], f);
    assert [e] + [f] == [e, f];
  }

  lemma CoalesceOne(e: Entry)
    ensures Coalesce([e]) == [e]
  {
  }

  // ---- the normal form depends only on the memory described ---------------------------------------

  predicate Disjoint(s: seq<Entry>) {
    forall i, j | 0 <= i < j < |s| :: s[i].base + s[i].length <= s[j].base
  }

  /** Firmware descriptors that do not overlap: no address is described twice. */
  ghost predicate DescribedOnce(raw: seq<Descriptor>) {
    forall a: nat, k: nat, k': nat ::
      RawCount(raw, a, k) <= 1 && (RawCount(raw, a, k) == 0 || RawCount(raw, a, k') == 0 || k == k')
  }

  /** Two maps that agree on how often each address has each kind. */
  ghost predicate SameMemory(s: seq<Entry>, t: seq<Entry>) {
    forall a: nat, k: nat :: Count(s, a, k) == Count(t, a, k)
  }

  lemma {:induction false} CountWitness(s: seq<Entry>, a: nat, k: nat) returns (i: nat)
    requires Count(s, a, k) > 0
    ensures i < |s| && Covers(s[i], a) && s[i].kind == k
  {
    i := |s| - 1;
    if !(Covers(s[i], a) && s[i].kind == k) {
      i := CountWitness(s[..|s| - 1], a, k);
    }
  }

  lemma {:induction false} CountAtLeast(s: seq<Entry>, a: nat, i: nat)
    requires i < |s| && Covers(s[i], a)
    ensures Count(s, a, s[i].kind) >= 1
    ensures forall j | i < j < |s| && Covers(s[j], a) && s[j].kind == s[i].kind :: Count(s, a, s[i].kind) >= 2
  {
    if i < |s| - 1 {
      CountAtLeast(s[..|s| - 1], a, i);
    }
  }

  lemma SortedOnceDisjoint(s: seq<Entry>)
    requires Sorted(s) && Sane(s)
    requires forall a: nat, k: nat, k': nat ::
               Count(s, a, k) <= 1 && (Count(s, a, k) == 0 || Count(s, a, k') == 0 || k == k')
    ensures Disjoint(s)
  {
    hide Count;
    forall i, j | 0 <= i < j < |s|
      ensures s[i].base + s[i].length <= s[j].base
    {
      if s[j].base < s[i].base + s[i].length {
        var a := s[j].base;
        CountAtLeast(s, a, j);
        CountAtLeast(s, a, i);
      }
    }
  }

  /** The last entries of two disjoint maps of the same memory end at the same address, with the same kind. */
  lemma LastEnd(s: seq<Entry>, t: seq<Entry>)
    requires Disjoint(s) && Disjoint(t) && Sane(s) && Sane(t) && SameMemory(s, t) && s != [] && t != []
    ensures var e, f := s[|s| - 1], t[|t| - 1]; e.base + e.length == f.base + f.length && e.kind == f.kind
  {
    hide Count;
    var e, f := s[|s| - 1], t[|t| - 1];
    var a, b := e.base + e.length - 1, f.base + f.length - 1;
    CountAtLeast(s, a, |s| - 1);
    var i := CountWitness(t, a, e.kind);
    CountAtLeast(t, b, |t| - 1);
    var j := CountWitness(s, b, f.kind);
  }

  /** In a coalesced map nothing of the last entry's kind ends right below it. */
  lemma NothingJustBelow(t: seq<Entry>)
    requires Disjoint(t) && Sane(t) && Coalesced(t) && t != [] && 0 < t[|t| - 1].base
    ensures forall i | 0 <= i < |t| && Covers(t[i], t[|t| - 1].base - 1) :: t[i].kind != t[|t| - 1].kind
  {
    forall i | 0 <= i < |t| - 2
      ensures t[i].base + t[i].length < t[|t| - 1].base
    {
      assert t[i].base + t[i].length <= t[i + 1].base < t[i + 1].base + t[i + 1].length;
    }
    assert |t| >= 2 ==> !Mergeable(t[|t| - 2], t[|t| - 1]);
  }

  lemma LastBase(s: seq<Entry>, t: seq<Entry>)
    requires Disjoint(s) && Disjoint(t) && Sane(s) && Sane(t) && SameMemory(s, t) && s != [] && t != [] && Coalesced(t)
    ensures t[|t| - 1].base <= s[|s| - 1].base
  {
    hide Count;
    LastEnd(s, t);
    var e, f := s[|s| - 1], t[|t| - 1];
    if e.base < f.base {
      var a := f.base - 1;
      NothingJustBelow(t);
      CountAtLeast(s, a, |s| - 1);
      var i := CountWitness(t, a, e.kind);
    }
  }

  ghost predicate Proper(s: seq<Entry>) {
    Disjoint(s) && Sane(s) && Coalesced(s)
  }

  lemma ProperPrefix(s: seq<Entry>)
    requires Proper(s) && s != []
    ensures Proper(s[..|s| - 1])
  {
  }

  lemma SameMemoryPrefix(s: seq<Entry>, t: seq<Entry>)
    requires SameMemory(s, t) && s != [] && t != [] && s[|s| - 1] == t[|t| - 1]
    ensures SameMemory(s[..|s| - 1], t[..|t| - 1])
  {
    var p, q := s[..|s| - 1], t[..|t| - 1];
    forall a: nat, k: nat
      ensures Count(p, a, k) == Count(q, a, k)
    {
      assert Count(s, a, k) == Count(t, a, k);
    }
  }

  lemma EmptyMemory(s: seq<Entry>)
    requires SameMemory(s, []) && Sane(s)
    ensures s == []
  {
    if s != [] {
      CountAtLeast(s, s[0].base, 0);
    }
  }

  lemma {:induction false} NormalFormUnique(s: seq<Entry>, t: seq<Entry>)
    requires Proper(s) && Proper(t) && SameMemory(s, t)
    ensures s == t
  {
    hide Count, Coalesced, SameMemory;
    if s == [] {
      Symmetric(s, t);
      EmptyMemory(t);
    } else if t == [] {
      EmptyMemory(s);
    } else {
      Symmetric(s, t);
      LastEnd(s, t);
      LastBase(s, t);
      LastBase(t, s);
      SameMemoryPrefix(s, t);
      ProperPrefix(s);
      ProperPrefix(t);
      NormalFormUnique(s[..|s| - 1], t[..|t| - 1]);
      assert s == s[..|s| - 1] + [s[|s| - 1]] && t == t[..|t| - 1] + [t[|t| - 1]];
    }
  }

  lemma Symmetric(s: seq<Entry>, t: seq<Entry>)
    requires SameMemory(s, t)
    ensures SameMemory(t, s)
  {
  }

  /**
   Canonical form: two firmware maps without overlaps that describe the same
   memory normalise to the same entries, however they were ordered or split.
   */
  lemma CanonicalForm(raw: seq<Descriptor>, raw': seq<Descriptor>)
    requires NoWrap(raw) && NoWrap(raw') && DescribedOnce(raw) && DescribedOnce(raw')
    requires forall a: nat, k: nat :: RawCount(raw, a, k) == RawCount(raw', a, k)
    ensures Normal(raw) == Normal(raw')
  {
    hide Normal, Count, RawCount;
    Normalised(raw);
    Normalised(raw');
    SortedOnceDisjoint(Normal(raw));
    SortedOnceDisjoint(Normal(raw'));
    NormalFormUnique(Normal(raw), Normal(raw'));
  }

  // ---- the code, in place ------------------------------------------------------------------------

  /** The number of descriptors with at least one page. */
  function NonEmpty(raw: seq<Descriptor>): nat {
    if raw == [] then 0 else NonEmpty(raw[..|raw| - 1]) + if raw[|raw| - 1].pages == 0 then 0 else 1
  }

  lemma {:induction false} ConvertLength(raw: seq<Descriptor>)
    ensures |Convert(raw)| == NonEmpty(raw)
  {
    if raw != [] { ConvertLength(raw[..|raw| - 1]); }
  }

  lemma {:induction false} NonEmptyPrefix(raw: seq<Descriptor>, i: nat)
    requires i <= |raw|
    ensures NonEmpty(raw[..i]) <= NonEmpty(raw)
    decreases |raw| - i
  {
    if i == |raw| {
      assert raw[..i] == raw;
    } else {
      NonEmptyPrefix(raw, i + 1);
      assert raw[..i + 1][..i] == raw[..i];
    }
  }

  /** First pass: filter and convert, stopping with -1 when `out` is full. */
  method Collect(raw: seq<Descriptor>, out: array<Entry>, cap: nat) returns (n: int)
    requires cap <= out.Length
    modifies out
    ensures n == -1 <==> NonEmpty(raw) > cap
    ensures n != -1 ==> 0 <= n <= cap && out[..n] == Convert(raw)
  {
    n := 0;
    for i := 0 to |raw|
      invariant 0 <= n <= cap && out[..n] == Convert(raw[..i])
    {
      var d := raw[i];
      assert raw[..i + 1][..i] == raw[..i];
      ConvertLength(raw[..i]);
      if d.pages != 0 {
        if n >= cap {
          NonEmptyPrefix(raw, i + 1);
          return -1;
        }
        out[n] := Entry(d.start, d.pages * PAGE % U64, KindOf(d.efiType));
        n := n + 1;
      }
    }
    assert raw[..|raw|] == raw;
    ConvertLength(raw);
  }

  lemma {:induction false} InsertAt(s: seq<Entry>, e: Entry, j: nat)
    requires j <= |s| && (j > 0 ==> s[j - 1].base <= e.base) && forall t | j <= t < |s| :: s[t].base > e.base
    ensures Insert(s, e) == s[..j] + [e] + s[j..]
  {
    if j == |s| {
      assert s[..j] == s;
    } else {
      InsertAt(s[..|s| - 1], e, j);
      assert s[j..] == s[..|s| - 1][j..] + [s[|s| - 1]];
    }
  }

  /** Moves `out[i]` left into the sorted part `out[..i]`. */
  method InsertInPlace(out: array<Entry>, i: nat)
    requires i < out.Length
    modifies out
    ensures out[..i + 1] == Insert(old(out[..i]), old(out[i]))
    ensures out[i + 1..] == old(out[i + 1..])
  {
    hide Insert;
    var key, j := out[i], i;
    ghost var s, whole := out[..i], out[..];
    while j > 0 && out[j - 1].base > key.base
      invariant j <= i && (forall t | 0 <= t < j || i < t < out.Length :: out[t] == whole[t])
      invariant forall t | j < t <= i :: out[t] == whole[t - 1]
      invariant forall t | j <= t < i :: s[t].base > key.base
    {
      out[j] := out[j - 1];
      j := j - 1;
    }
    out[j] := key;
    InsertAt(s, key, j);
    Shifted(whole, out[..], i, j);
  }

  /** What the shift and the last store leave: the key between the two parts of the prefix. */
  lemma Shifted(before: seq<Entry>, after: seq<Entry>, i: nat, j: nat)
    requires j <= i < |before| == |after| && after[j] == before[i]
    requires forall t | 0 <= t < j || i < t < |before| :: after[t] == before[t]
    requires forall t | j < t <= i :: after[t] == before[t - 1]
    ensures after[..i + 1] == before[..i][..j] + [before[i]] + before[..i][j..] && after[i + 1..] == before[i + 1..]
  {
    var r := before[..i][..j] + [before[i]] + before[..i][j..];
    forall t | 0 <= t < i + 1
      ensures after[..i + 1][t] == r[t]
    {
      if t > j { assert r[t] == before[..i][j..][t - j - 1] == before[t - 1]; }
    }
  }

  /** Second pass: insertion sort of `out[..n]`. */
  method InsertionSort(out: array<Entry>, n: nat)
    requires n <= out.Length
    modifies out
    ensures out[..n] == Sort(old(out[..n]))
  {
    hide Insert;
    ghost var s := out[..n];
    if n == 0 {
      return;
    }
    assert out[..1] == Sort(s[..1]) by { assert s[..1] == [s[0]]; SortOne(s[0]); }
    for i := 1 to n
      invariant out[..i] == Sort(s[..i]) && out[i..n] == s[i..]
    {
      assert out[i] == out[i..n][0];
      assert s[..i + 1][..i] == s[..i];
      assert out[i + 1..n] == out[i..n][1..] == s[i + 1..];
      ghost var tail := out[i + 1..];
      assert out[i + 1..n] == tail[..n - i - 1];
      InsertInPlace(out, i);
      assert out[i + 1..] == tail;
      assert out[i + 1..n] == out[i + 1..][..n - i - 1];
    }
    assert s[..n] == s;
  }

  lemma SortOne(e: Entry)
    ensures Sort([e]) == [e]
  {
    assert Sort([]) == [];
    assert [e][..0] == [];
    assert Insert([], e) == [e];
  }

  lemma CoalesceNone(s: seq<Entry>)
    ensures Coalesce(s[..0]) == []
  {
  }

  lemma CoalesceNext(s: seq<Entry>, i: nat)
    requires i < |s|
    ensures var r := Coalesce(s[..i]);
            Coalesce(s[..i + 1]) ==
            if r != [] && Joins(r[|r| - 1], s[i]) then r[|r| - 1 := Extend(r[|r| - 1], s[i])] else r + [s[i]]
  {
    hide Joins, Extend;
    assert s[..i + 1][..i] == s[..i];
  }

  /** Third pass: merges adjacent entries of one kind, compacting `out[..n]`. */
  method CoalesceInPlace(out: array<Entry>, n: nat) returns (m: nat)
    requires n <= out.Length
    modifies out
    ensures m <= n && out[..m] == Coalesce(old(out[..n]))
  {
    hide Joins, Extend, Coalesce;
    m := 0;
    ghost var s := out[..n];
    CoalesceNone(s);
    for i := 0 to n
      invariant m <= i && out[..m] == Coalesce(s[..i]) && out[i..n] == s[i..]
    {
      assert s[i..][0] == s[i];
      assert out[i] == out[i..n][0];
      CoalesceNext(s, i);
      ghost var r := Coalesce(s[..i]);
      if m != 0 && Joins(out[m - 1], out[i]) {
        out[m - 1] := Extend(out[m - 1], out[i]);
        assert out[..m] == r[m - 1 := Extend(r[m - 1], s[i])];
      } else {
        out[m] := out[i];
        m := m + 1;
        assert out[..m] == r + [s[i]];
      }
      assert out[i + 1..n] == s[i..][1..];
    }
    assert s[..n] == s;
  }

  /** mmap_normalize. */
  method Normalize(raw: seq<Descriptor>, out: array<Entry>, cap: nat) returns (m: int)
    requires cap <= out.Length
    modifies out
    ensures m == -1 <==> NonEmpty(raw) > cap
    ensures m != -1 ==> 0 <= m <= cap && out[..m] == Normal(raw)
    ensures m != -1 && NoWrap(raw) ==> Sorted(out[..m]) && Coalesced(out[..m])
    ensures m != -1 && NoWrap(raw) ==> forall a: nat, k: nat :: Count(out[..m], a, k) == RawCount(raw, a, k)
  {
    hide Sort, Coalesce, Convert, Sorted, Coalesced, Count, RawCount, NonEmpty;
    m := Collect(raw, out, cap);
    if m != -1 {
      ConvertLength(raw);
      InsertionSort(out, m);
      m := CoalesceInPlace(out, m);
      if NoWrap(raw) { Normalised(raw); }
    }
  }

  // ---- usable memory ---------------------------------------------------------------------------

  function UsablePages(raw: seq<Descriptor>): nat {
    if raw == [] then 0
    else UsablePages(raw[..|raw| - 1]) + if KindOf(raw[|raw| - 1].efiType) == USABLE then raw[|raw| - 1].pages else 0
  }

  function UsableLength(s: seq<Entry>): nat {
    if s == [] then 0
    else UsableLength(s[..|s| - 1]) + if s[|s| - 1].kind == USABLE then s[|s| - 1].length else 0
  }

  lemma {:induction false} ConvertLengths(raw: seq<Descriptor>)
    requires Bounded(raw)
    ensures UsableLength(Convert(raw)) == PAGE * UsablePages(raw)
  {
    if raw != [] {
      var r, d := raw[..|raw| - 1], raw[|raw| - 1];
      ConvertLengths(r);
      if d.pages != 0 { assert Convert(raw)[..|Convert(raw)| - 1] == Convert(r); }
    }
  }

  lemma {:induction false} SortLengths(s: seq<Entry>)
    ensures UsableLength(Sort(s)) == UsableLength(s)
  {
    if s != [] {
      SortLengths(s[..|s| - 1]);
      InsertLengths(Sort(s[..|s| - 1]), s[|s| - 1]);
    }
  }

  lemma {:induction false} InsertLengths(s: seq<Entry>, e: Entry)
    ensures UsableLength(Insert(s, e)) == UsableLength(s) + if e.kind == USABLE then e.length else 0
  {
    var r := Insert(s, e);
    InsertLength(s, e);
    if s == [] || s[|s| - 1].base <= e.base {
      assert r[..|r| - 1] == s;
    } else {
      InsertLengths(s[..|s| - 1], e);
      assert r[..|r| - 1] == Insert(s[..|s| - 1], e);
    }
  }

  lemma {:induction false} CoalesceLengths(s: seq<Entry>)
    requires Sorted(s) && Sane(s) && forall k: nat :: !Whole(s, k)
    ensures UsableLength(Coalesce(s)) == UsableLength(s)
  {
    hide Joins, Extend, Sorted, Coalesced, UsableLength, Whole, SameMemory;
    if s == [] {
      assert Coalesce(s) == s;
    } else {
      var p, e := s[..|s| - 1], s[|s| - 1];
      var r := Coalesce(p);
      assert p + [e] == s;
      SortedPrefix(s);
      forall k: nat
        ensures !Whole(p, k)
      {
        if Whole(p, k) { WholeMore(p, e, k); }
      }
      CoalesceLengths(p);
      CoalesceKeeps(p);
      LengthsLast(p, e);
      if r != [] && Joins(r[|r| - 1], e) {
        var q, last := r[..|r| - 1], r[|r| - 1];
        JoinMerges(last, e);
        if last.length + e.length >= U64 { WrapsWhole(p, e, r); }
        LengthsLast(q, last);
        LengthsLast(q, Extend(last, e));
        assert q + [last] == r && Coalesce(s) == q + [Extend(last, e)];
      } else {
        LengthsLast(r, e);
      }
    }
  }

  lemma LengthsLast(s: seq<Entry>, e: Entry)
    ensures UsableLength(s + [e]) == UsableLength(s) + if e.kind == USABLE then e.length else 0
  {
    assert (s + [e])[..|s|] == s;
  }

  /** Normalisation conserves usable memory: its bytes are the firmware's usable pages, times 4096. */
  lemma UsableConserved(raw: seq<Descriptor>)
    requires NoWrap(raw)
    ensures UsableLength(Normal(raw)) == PAGE * UsablePages(raw)
  {
    ConvertLengths(raw);
    SortLengths(Convert(raw));
    ConvertSane(raw);
    SortSorted(Convert(raw));
    forall k: nat
      ensures !Whole(Sort(Convert(raw)), k)
    {
      ConvertWhole(raw, k);
    }
    CoalesceLengths(Sort(Convert(raw)));
  }

  /** Disjoint entries are no longer than where they end; as long only when all memory up to there is usable. */
  lemma {:induction false} DisjointLengths(s: seq<Entry>)
    requires Disjoint(s) && Sane(s) && s != []
    ensures var end := s[|s| - 1].base + s[|s| - 1].length;
            UsableLength(s) <= end && (UsableLength(s) == end ==> forall a: nat | a < end :: Count(s, a, USABLE) > 0)
  {
    var n := |s| - 1;
    if n > 0 {
      DisjointLengths(s[..n]);
      assert s[n - 1].base + s[n - 1].length <= s[n].base;
    } else {
      assert UsableLength(s[..0]) == 0;
    }
  }

  /** A map that describes each address at most once has a usable total below 2^64. */
  lemma UsableFits(raw: seq<Descriptor>)
    requires NoWrap(raw) && DescribedOnce(raw)
    ensures PAGE * UsablePages(raw) < U64
  {
    hide Normal, Count, RawCount, UsableLength, UsablePages;
    Normalised(raw);
    UsableConserved(raw);
    SortedOnceDisjoint(Normal(raw));
    if Normal(raw) == [] {
      NoLength();
    } else {
      DisjointLengths(Normal(raw));
      assert !RawWhole(raw, USABLE);
      var a: nat :| a < U64 && RawCount(raw, a, USABLE) == 0;
      assert Count(Normal(raw), a, USABLE) == 0;
    }
  }

  lemma NoLength()
    ensures UsableLength([]) == 0
  {
  }

  /** The usable-memory total of bootinfo_init: a 64-bit accumulator over the map entries. */
  method UsableBytes(entries: seq<Entry>) returns (bytes: nat)
    ensures bytes == UsableLength(entries) % U64
  {
    bytes := 0;
    for i := 0 to |entries|
      invariant bytes == UsableLength(entries[..i]) % U64
    {
      assert entries[..i + 1][..i] == entries[..i];
      if entries[i].kind == USABLE {
        bytes := (bytes + entries[i].length) % U64;
      }
    }
    assert entries[..|entries|] == entries;
  }
}
