/** Sorted lists of disjoint address ranges: the meaning of the VMA lists of kernel/mm/vma.c. */
module VmaList {
  import opened Bytes
  import opened Links

  const PAGE: nat := 4096

  /** A virtual memory area: addresses from `start` up to `end`. */
  datatype Vma = Vma(start: nat, end: nat, flags: nat, fd: int, offset: nat)

  datatype Mapping = Unmapped | Mapped(flags: nat, fd: int)

  predicate Proper(v: Vma) {
    v.start < v.end < U32 && v.start % PAGE == 0 && v.end % PAGE == 0
  }

  predicate Contains(v: Vma, a: nat) {
    v.start <= a < v.end
  }

  predicate Overlap(v: Vma, w: Vma) {
    v.start < w.end && w.start < v.end
  }

  /** Page-aligned areas in ascending order, none overlapping another. */
  ghost predicate Sorted(s: seq<Vma>) {
    && (forall i | 0 <= i < |s| :: Proper(s[i]))
    && (forall i, j | 0 <= i < j < |s| :: s[i].end <= s[j].start)
  }

  /** What an address is mapped as. */
  function At(s: seq<Vma>, a: nat): Mapping {
    if s == [] then Unmapped else if Contains(s[0], a) then Mapped(s[0].flags, s[0].fd) else At(s[1..], a)
  }

  lemma {:induction false} AtConcat(s: seq<Vma>, t: seq<Vma>, a: nat)
    ensures At(s + t, a) == if At(s, a).Mapped? then At(s, a) else At(t, a)
  {
    if s == [] {
      assert s + t == t;
    } else {
      assert (s + t)[1..] == s[1..] + t;
      AtConcat(s[1..], t, a);
    }
  }

  lemma {:induction false} AtNone(s: seq<Vma>, a: nat)
    ensures At(s, a) == Unmapped <==> forall i | 0 <= i < |s| :: !Contains(s[i], a)
  {
    if s != [] {
      AtNone(s[1..], a);
      assert forall i | 1 <= i < |s| :: s[i] == s[1..][i - 1];
    }
  }

  /** An address in an area of a sorted list is mapped as that area. */
  lemma {:induction false} AtFound(s: seq<Vma>, k: nat, a: nat)
    requires Sorted(s) && k < |s| && Contains(s[k], a)
    ensures At(s, a) == Mapped(s[k].flags, s[k].fd)
  {
    if k > 0 {
      assert Proper(s[0]) && s[0].end <= s[k].start;
      AtFound(s[1..], k - 1, a);
    }
  }

  // ---- insertion -----------------------------------------------------------------------------------

  /** `k` is where the search of vma_insert stops. */
  ghost predicate Place(s: seq<Vma>, k: nat, start: nat) {
    && k <= |s|
    && (forall i | 0 <= i < k :: s[i].start < start)
    && (k < |s| ==> start <= s[k].start)
  }

  /** There is exactly one such place. */
  ghost function PlaceOf(s: seq<Vma>, start: nat): (k: nat)
    ensures Place(s, k, start)
  {
    if s == [] || start <= s[0].start then 0
    else
      var k := PlaceOf(s[1..], start) + 1;
      assert forall i | 1 <= i < |s| :: s[i] == s[1..][i - 1];
      k
  }

  lemma PlaceUnique(s: seq<Vma>, k: nat, start: nat)
    requires Place(s, k, start)
    ensures k == PlaceOf(s, start)
  {
  }

  predicate Clash(s: seq<Vma>, k: nat, v: Vma)
    requires k <= |s|
  {
    (k > 0 && s[k - 1].end > v.start) || (k < |s| && v.end > s[k].start)
  }

  /** Looking at the two neighbours is enough to see an overlap with any area. */
  lemma ClashIsOverlap(s: seq<Vma>, k: nat, v: Vma)
    requires Sorted(s) && Proper(v) && Place(s, k, v.start)
    ensures Clash(s, k, v) <==> exists i :: 0 <= i < |s| && Overlap(s[i], v)
  {
    if k > 0 && s[k - 1].end > v.start {
      assert Overlap(s[k - 1], v);
    } else if k < |s| && v.end > s[k].start {
      assert Overlap(s[k], v);
    } else {
      forall i | 0 <= i < |s|
        ensures !Overlap(s[i], v)
      {
        if i < k {
          assert s[i].end <= v.start;
        } else {
          assert s[k].start <= s[i].start;
        }
      }
    }
  }

  lemma ClearOfNew(s: seq<Vma>, k: nat, v: Vma, i: nat)
    requires Sorted(s) && k <= |s| && !Clash(s, k, v) && i < |s|
    ensures if i < k then s[i].end <= v.start else v.end <= s[i].start
  {
    if i < k { assert Proper(s[k - 1]); } else { assert Proper(s[k]); }
  }

  lemma InsertSorted(s: seq<Vma>, k: nat, v: Vma)
    requires Sorted(s) && Proper(v) && k <= |s| && !Clash(s, k, v)
    ensures Sorted(PutAt(s, k, v))
  {
    hide Proper, Clash;
    var t := PutAt(s, k, v);
    assert t[k] == v && (forall i | 0 <= i < k :: t[i] == s[i]) && (forall i | k < i < |t| :: t[i] == s[i - 1]);
    forall i: nat | i < |s|
      ensures if i < k then s[i].end <= v.start else v.end <= s[i].start
    {
      ClearOfNew(s, k, v, i);
    }
  }

  /** Insertion maps the new area and changes nothing else. */
  lemma InsertMaps(s: seq<Vma>, k: nat, v: Vma, a: nat)
    requires k <= |s| && forall i | 0 <= i < |s| :: !Overlap(s[i], v)
    ensures At(PutAt(s, k, v), a) == if Contains(v, a) then Mapped(v.flags, v.fd) else At(s, a)
  {
    assert PutAt(s, k, v) == s[..k] + ([v] + s[k..]);
    assert s == s[..k] + s[k..];
    AtConcat(s[..k], [v] + s[k..], a);
    AtConcat([v], s[k..], a);
    AtConcat(s[..k], s[k..], a);
    assert [v][1..] == [];
    AtNone(s[..k], a);
  }

  // ---- removal -------------------------------------------------------------------------------------

  lemma DropSorted(s: seq<Vma>, k: nat)
    requires Sorted(s) && k < |s|
    ensures Sorted(DropAt(s, k))
  {
    var t := DropAt(s, k);
    assert forall i | 0 <= i < |t| :: t[i] == s[if i < k then i else i + 1];
  }

  /** Removal unmaps the area and changes nothing else. */
  lemma RemoveMaps(s: seq<Vma>, k: nat, a: nat)
    requires Sorted(s) && k < |s|
    ensures At(DropAt(s, k), a) == if Contains(s[k], a) then Unmapped else At(s, a)
  {
    DropSorted(s, k);
    assert s == PutAt(DropAt(s, k), k, s[k]);
    var t := DropAt(s, k);
    forall i | 0 <= i < |t|
      ensures !Overlap(t[i], s[k])
    {
      assert t[i] == s[if i < k then i else i + 1];
    }
    InsertMaps(t, k, s[k], a);
    if Contains(s[k], a) { AtNone(t, a); }
  }

  // ---- merging -------------------------------------------------------------------------------------

  predicate Mergeable(u: Vma, v: Vma) {
    u.end == v.start && u.flags == v.flags && u.fd == v.fd
  }

  function Joined(s: seq<Vma>, k: nat): seq<Vma>
    requires k + 1 < |s|
  {
    s[..k] + [s[k].(end := s[k + 1].end)] + s[k + 2..]
  }

  lemma JoinedSorted(s: seq<Vma>, k: nat)
    requires Sorted(s) && k + 1 < |s|
    ensures Sorted(Joined(s, k))
  {
    var t := Joined(s, k);
    assert t[k] == s[k].(end := s[k + 1].end) && Proper(s[k + 1]) && s[k].end <= s[k + 1].start;
    assert (forall i | 0 <= i < k :: t[i] == s[i]) && (forall i | k < i < |t| :: t[i] == s[i + 1]);
  }

  /** Merging keeps the mapping of every address. */
  lemma MergeMaps(s: seq<Vma>, k: nat, a: nat)
    requires Sorted(s) && k + 1 < |s| && Mergeable(s[k], s[k + 1])
    ensures At(Joined(s, k), a) == At(s, a)
  {
    var u, v := s[k], s[k + 1];
    var w := u.(end := v.end);
    assert Proper(u) && Proper(v);
    assert s == s[..k] + ([u, v] + s[k + 2..]) && Joined(s, k) == s[..k] + ([w] + s[k + 2..]);
    AtConcat(s[..k], [u, v] + s[k + 2..], a);
    AtConcat(s[..k], [w] + s[k + 2..], a);
    AtConcat([u, v], s[k + 2..], a);
    AtConcat([w], s[k + 2..], a);
    assert [u, v][1..] == [v] && [v][1..] == [] && [w][1..] == [];
    assert At([u, v], a) == if Contains(u, a) then Mapped(u.flags, u.fd) else At([v], a);
  }

  /** Where in its file an address of an area is, a 32-bit sum. */
  function FileOffset(v: Vma, a: nat): nat
    requires Contains(v, a)
  {
    (v.offset + (a - v.start)) % U32
  }

  /** Offsets into the file survive a merge exactly when the two parts were adjacent in the file as well. */
  lemma MergeOffsets(u: Vma, v: Vma)
    requires Proper(u) && Proper(v) && Mergeable(u, v) && v.offset < U32
    ensures (forall a: nat | Contains(v, a) :: FileOffset(u.(end := v.end), a) == FileOffset(v, a))
            <==> v.offset == (u.offset + (v.start - u.start)) % U32
  {
    var w := u.(end := v.end);
    assert Contains(v, v.start) && Contains(w, v.start);
    assert FileOffset(v, v.start) == v.offset;
    forall a: nat | Contains(v, a)
      ensures v.offset == (u.offset + (v.start - u.start)) % U32 ==> FileOffset(w, a) == FileOffset(v, a)
    {
      assert u.offset + (a - u.start) == u.offset + (v.start - u.start) + (a - v.start);
      AddMod(u.offset + (v.start - u.start), a - v.start);
    }
  }

  lemma AddMod(a: nat, b: nat)
    ensures (a % U32 + b) % U32 == (a + b) % U32
  {
    assert a == a / U32 * U32 + a % U32;
  }

  /** Two halves of a file mapped in the wrong order: merging moves the second half's addresses to other bytes. */
  lemma MergeExample()
    ensures var u, v := Vma(0x1000, 0x2000, 0, 3, 0x1000), Vma(0x2000, 0x3000, 0, 3, 0);
            Mergeable(u, v) && FileOffset(u.(end := v.end), 0x2000) == 0x2000 && FileOffset(v, 0x2000) == 0
  {
  }

  // ---- unmapping -------------------------------------------------------------------------------------

  /** An area that sys_munmap takes out: inside the range as a whole. */
  predicate Inside(v: Vma, start: nat, end: nat) {
    v.end > start && v.start < end && v.start >= start && v.end <= end
  }

  /** The areas that stay. */
  function Outside(s: seq<Vma>, start: nat, end: nat): seq<Vma> {
    if s == [] then []
    else Outside(s[..|s| - 1], start, end) + if Inside(s[|s| - 1], start, end) then [] else [s[|s| - 1]]
  }

  /** The address lies in an area that is taken out. */
  ghost predicate Hit(s: seq<Vma>, start: nat, end: nat, a: nat) {
    exists i :: 0 <= i < |s| && Contains(s[i], a) && Inside(s[i], start, end)
  }

  lemma HitLast(t: seq<Vma>, v: Vma, start: nat, end: nat, a: nat)
    ensures Hit(t + [v], start, end, a) <==> Hit(t, start, end, a) || (Contains(v, a) && Inside(v, start, end))
  {
    var s := t + [v];
    assert s[|t|] == v && forall i | 0 <= i < |t| :: s[i] == t[i];
  }

  /**
   Unmapping unmaps the areas inside the range and changes nothing else; an area that only
   overlaps it stays whole.
   */
  lemma {:induction false} UnmapMaps(s: seq<Vma>, start: nat, end: nat, a: nat)
    requires Sorted(s)
    ensures At(Outside(s, start, end), a) == if Hit(s, start, end, a) then Unmapped else At(s, a)
  {
    hide Hit, Inside, Proper;
    if s == [] {
      HitNone(start, end, a);
    } else {
      var t, v := s[..|s| - 1], s[|s| - 1];
      UnmapMaps(t, start, end, a);
      assert s == t + [v] && [v][1..] == [];
      HitLast(t, v, start, end, a);
      AtConcat(t, [v], a);
      AtConcat(Outside(t, start, end), [v], a);
      assert Outside(t, start, end) + [] == Outside(t, start, end);
      if Contains(v, a) {
        forall i | 0 <= i < |t|
          ensures !Contains(t[i], a)
        {
          assert t[i] == s[i] && s[i].end <= v.start;
        }
        AtNone(t, a);
        HitMapped(t, start, end, a);
      }
    }
  }

  lemma HitNone(start: nat, end: nat, a: nat)
    ensures !Hit([], start, end, a)
  {
  }

  lemma HitMapped(s: seq<Vma>, start: nat, end: nat, a: nat)
    ensures Hit(s, start, end, a) ==> At(s, a).Mapped?
  {
    AtNone(s, a);
  }

  // ---- stack growth ------------------------------------------------------------------------------------

  /** Area `k` moved one page down. */
  function Grown(s: seq<Vma>, k: nat): seq<Vma>
    requires k < |s| && s[k].start >= PAGE
  {
    s[k := s[k].(start := s[k].start - PAGE)]
  }

  /** A fault in the page below an area, in no area itself, leaves room for the area to grow over it. */
  lemma GrowSorted(s: seq<Vma>, k: nat, addr: nat)
    requires Sorted(s) && k < |s| && s[k].start - PAGE <= addr < s[k].start
    requires forall i | 0 <= i < k :: s[i].end <= addr
    ensures s[k].start >= PAGE && Sorted(Grown(s, k)) && Contains(Grown(s, k)[k], addr)
  {
    assert Proper(s[k]);
    forall i | 0 <= i < k
      ensures s[i].end <= s[k].start - PAGE
    {
      assert Proper(s[i]);
    }
  }

  // ---- gaps ------------------------------------------------------------------------------------------

  const KERNEL_BASE: nat := 0xC000_0000

  /** `size` free bytes at `a`, at or above `base` and below the kernel. */
  ghost predicate Fits(s: seq<Vma>, base: nat, size: nat, a: nat) {
    && base <= a && a + size <= KERNEL_BASE
    && forall i | 0 <= i < |s| :: a + size <= s[i].start || s[i].end <= a
  }

  /** Where the search of find_free_region stands after `k` areas. */
  function Candidate(s: seq<Vma>, base: nat, k: nat): nat
    requires k <= |s|
  {
    if k == 0 then base
    else if s[k - 1].end > Candidate(s, base, k - 1) then s[k - 1].end else Candidate(s, base, k - 1)
  }

  lemma {:induction false} CandidateClears(s: seq<Vma>, base: nat, k: nat)
    requires k <= |s|
    ensures base <= Candidate(s, base, k) && forall i | 0 <= i < k :: s[i].end <= Candidate(s, base, k)
  {
    if k > 0 { CandidateClears(s, base, k - 1); }
  }

  lemma {:induction false} CandidateLeast(s: seq<Vma>, base: nat, k: nat, a: nat)
    requires k <= |s| && base <= a && forall i | 0 <= i < k :: s[i].end <= a
    ensures Candidate(s, base, k) <= a
  {
    if k > 0 { CandidateLeast(s, base, k - 1, a); }
  }

  lemma {:induction false} CandidateRises(s: seq<Vma>, base: nat, k: nat, m: nat)
    requires k <= m <= |s|
    ensures Candidate(s, base, k) <= Candidate(s, base, m)
  {
    if k < m { CandidateRises(s, base, k, m - 1); }
  }

  /** All areas end at or below the kernel. */
  ghost predicate UserSpace(s: seq<Vma>) {
    forall i | 0 <= i < |s| :: s[i].end <= KERNEL_BASE
  }

  /** The search from area `k` on; the sums are 32-bit. */
  function FreeFrom(s: seq<Vma>, base: nat, size: nat, k: nat): nat
    requires k <= |s|
    decreases |s| - k
  {
    var c := Candidate(s, base, k);
    if k == |s| then if (c + size) % U32 <= KERNEL_BASE then c else 0
    else if (c + size) % U32 <= s[k].start then c
    else FreeFrom(s, base, size, k + 1)
  }

  /** A candidate that passes its test without overflow is a place that fits. */
  lemma CandidateFits(s: seq<Vma>, base: nat, size: nat, k: nat)
    requires Sorted(s) && UserSpace(s) && k <= |s|
    requires Candidate(s, base, k) + size <= if k == |s| then KERNEL_BASE else s[k].start
    ensures Fits(s, base, size, Candidate(s, base, k))
  {
    CandidateClears(s, base, k);
    if k < |s| {
      assert Proper(s[k]);
      forall i | k <= i < |s|
        ensures s[k].start <= s[i].start
      {
        assert i == k || s[k].end <= s[i].start;
      }
    }
  }

  /** If some place fits, the search returns the least one. */
  lemma {:induction false} FreeLeast(s: seq<Vma>, base: nat, size: nat, k: nat, a: nat)
    requires Sorted(s) && UserSpace(s) && k <= |s| && Fits(s, base, size, a)
    requires forall i | 0 <= i < k :: s[i].end <= a
    ensures Fits(s, base, size, FreeFrom(s, base, size, k)) && FreeFrom(s, base, size, k) <= a
    decreases |s| - k
  {
    hide Sorted, UserSpace, Candidate;
    var c := Candidate(s, base, k);
    CandidateLeast(s, base, k, a);
    if k == |s| || c + size <= s[k].start {
      CandidateFits(s, base, size, k);
    } else {
      FreeLeast(s, base, size, k + 1, a);
    }
  }

  /** If none fits and nothing overflows, the search says so. */
  lemma {:induction false} FreeNone(s: seq<Vma>, base: nat, size: nat, k: nat)
    requires Sorted(s) && UserSpace(s) && k <= |s|
    requires (forall a: nat :: !Fits(s, base, size, a)) && Candidate(s, base, |s|) + size < U32
    ensures FreeFrom(s, base, size, k) == 0
    decreases |s| - k
  {
    hide Sorted, UserSpace, Candidate, Fits;
    var c := Candidate(s, base, k);
    CandidateRises(s, base, k, |s|);
    if c + size <= (if k == |s| then KERNEL_BASE else s[k].start) {
      CandidateFits(s, base, size, k);
    }
    if k < |s| { FreeNone(s, base, size, k + 1); }
  }

  /** If none fits and the last sum overflows, the search returns some address all the same. */
  lemma {:induction false} FreeOverflow(s: seq<Vma>, base: nat, size: nat, k: nat)
    requires Sorted(s) && UserSpace(s) && k <= |s| && 0 < base <= KERNEL_BASE && size < U32
    requires Candidate(s, base, |s|) + size >= U32
    ensures FreeFrom(s, base, size, k) != 0
    decreases |s| - k
  {
    CandidateClears(s, base, k);
    if k < |s| {
      FreeOverflow(s, base, size, k + 1);
    } else {
      CandidateLeast(s, base, k, KERNEL_BASE);
    }
  }

  lemma {:induction false} FreeBound(s: seq<Vma>, base: nat, size: nat, k: nat)
    requires Sorted(s) && k <= |s| && base < U32
    ensures FreeFrom(s, base, size, k) < U32
    decreases |s| - k
  {
    assert forall i | 0 <= i < k :: Proper(s[i]);
    CandidateLeast(s, base, k, U32 - 1);
    if k < |s| { FreeBound(s, base, size, k + 1); }
  }

  lemma {:induction false} FreeAligned(s: seq<Vma>, base: nat, size: nat, k: nat)
    requires Sorted(s) && k <= |s| && base % PAGE == 0
    ensures FreeFrom(s, base, size, k) % PAGE == 0
    decreases |s| - k
  {
    CandidateAligned(s, base, k);
    if k < |s| { FreeAligned(s, base, size, k + 1); }
  }

  lemma {:induction false} CandidateAligned(s: seq<Vma>, base: nat, k: nat)
    requires Sorted(s) && k <= |s| && base % PAGE == 0
    ensures Candidate(s, base, k) % PAGE == 0
  {
    if k > 0 {
      CandidateAligned(s, base, k - 1);
      assert Proper(s[k - 1]);
    }
  }

  /** The least place that fits, or 0 if there is none. */
  ghost predicate IsFirstFit(s: seq<Vma>, base: nat, size: nat, r: nat) {
    && (r == 0 ==> forall a: nat :: !Fits(s, base, size, a))
    && (r != 0 ==> Fits(s, base, size, r) && forall a: nat | Fits(s, base, size, a) :: r <= a)
  }

  /** find_free_region is first fit exactly when a place fits or no sum overflows. */
  lemma FreeExact(s: seq<Vma>, base: nat, size: nat)
    requires Sorted(s) && UserSpace(s) && 0 < base <= KERNEL_BASE && size < U32
    ensures IsFirstFit(s, base, size, FreeFrom(s, base, size, 0))
            <==> (exists a: nat :: Fits(s, base, size, a)) || Candidate(s, base, |s|) + size < U32
  {
    hide Fits, FreeFrom, Candidate, Sorted;
    var r := FreeFrom(s, base, size, 0);
    if exists a: nat :: Fits(s, base, size, a) {
      forall a: nat | Fits(s, base, size, a)
        ensures Fits(s, base, size, r) && r <= a
      {
        FreeLeast(s, base, size, 0, a);
      }
      FitsBase(s, base, size, r);
    } else if Candidate(s, base, |s|) + size < U32 {
      FreeNone(s, base, size, 0);
    } else {
      FreeOverflow(s, base, size, 0);
    }
  }

  lemma FitsBase(s: seq<Vma>, base: nat, size: nat, a: nat)
    requires Fits(s, base, size, a)
    ensures base <= a
  {
  }

  /** A request that overflows: nothing fits, yet the base is returned. */
  lemma OverflowExample()
    ensures FreeFrom([], 0x4000_0000, 0xC000_0000, 0) == 0x4000_0000
    ensures forall a: nat :: !Fits([], 0x4000_0000, 0xC000_0000, a)
  {
  }

  /** An address the search returns fits unless its end overflows. */
  lemma {:induction false} FreeFits(s: seq<Vma>, base: nat, size: nat, k: nat)
    requires Sorted(s) && UserSpace(s) && k <= |s|
    ensures var r := FreeFrom(s, base, size, k); r != 0 && r + size < U32 ==> Fits(s, base, size, r)
    decreases |s| - k
  {
    hide Sorted, UserSpace, Candidate, Fits;
    var c := Candidate(s, base, k);
    if c + size <= (if k == |s| then KERNEL_BASE else s[k].start) {
      CandidateFits(s, base, size, k);
    }
    if k < |s| { FreeFits(s, base, size, k + 1); }
  }
}
