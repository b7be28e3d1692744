/**
 The physical page allocator of kernel/mm/pmm.c: a bitmap over a 128 MiB window,
 initialised from the loader's memory map.
 */
module Pmm {
  import opened BootMap

  const MEMORY_SIZE: nat := 0x800_0000
  const TOTAL_PAGES: nat := 32768
  const BITMAP_SIZE: nat := 4096
  const LOW_PAGES: nat := 512

  // ---- bits -----------------------------------------------------------------------------

  /** 1 << bit. */
  function Mask(bit: nat): bv8
    requires bit < 8
  {
    if bit == 0 then 1 else if bit == 1 then 2 else if bit == 2 then 4 else if bit == 3 then 8
    else if bit == 4 then 16 else if bit == 5 then 32 else if bit == 6 then 64 else 128
  }

  lemma SetBit(b: bv8, i: nat, j: nat)
    requires i < 8 && j < 8
    ensures (b | Mask(i)) & Mask(j) != 0 <==> i == j || b & Mask(j) != 0
  {
  }

  lemma ClearBit(b: bv8, i: nat, j: nat)
    requires i < 8 && j < 8
    ensures (b & !Mask(i)) & Mask(j) != 0 <==> i != j && b & Mask(j) != 0
  {
  }

  predicate IsSet(bitmap: seq<bv8>, p: nat)
    requires p / 8 < |bitmap|
  {
    bitmap[p / 8] & Mask(p % 8) != 0
  }

  function UsedIn(bitmap: seq<bv8>): set<nat>
    requires |bitmap| == BITMAP_SIZE
  {
    set p: nat | p < TOTAL_PAGES && IsSet(bitmap, p)
  }

  function WithSet(bitmap: seq<bv8>, p: nat): seq<bv8>
    requires p / 8 < |bitmap|
  {
    bitmap[p / 8 := bitmap[p / 8] | Mask(p % 8)]
  }

  function WithClear(bitmap: seq<bv8>, p: nat): seq<bv8>
    requires p / 8 < |bitmap|
  {
    bitmap[p / 8 := bitmap[p / 8] & !Mask(p % 8)]
  }

  lemma SetPageAt(bitmap: seq<bv8>, p: nat, q: nat)
    requires p / 8 < |bitmap| && q / 8 < |bitmap|
    ensures IsSet(WithSet(bitmap, p), q) <==> IsSet(bitmap, q) || q == p
  {
    hide Mask;
    if p / 8 == q / 8 {
      assert p % 8 == q % 8 <==> p == q;
      SetBit(bitmap[p / 8], p % 8, q % 8);
    }
  }

  lemma ClearPageAt(bitmap: seq<bv8>, p: nat, q: nat)
    requires p / 8 < |bitmap| && q / 8 < |bitmap|
    ensures IsSet(WithClear(bitmap, p), q) <==> IsSet(bitmap, q) && q != p
  {
    hide Mask;
    if p / 8 == q / 8 {
      assert p % 8 == q % 8 <==> p == q;
      ClearBit(bitmap[p / 8], p % 8, q % 8);
    }
  }

  lemma SetPage(bitmap: seq<bv8>, p: nat)
    requires |bitmap| == BITMAP_SIZE && p < TOTAL_PAGES
    ensures |WithSet(bitmap, p)| == BITMAP_SIZE && UsedIn(WithSet(bitmap, p)) == UsedIn(bitmap) + {p}
  {
    hide IsSet, Mask;
    forall q: nat | q < TOTAL_PAGES
      ensures IsSet(WithSet(bitmap, p), q) <==> IsSet(bitmap, q) || q == p
    {
      SetPageAt(bitmap, p, q);
    }
  }

  lemma ClearPage(bitmap: seq<bv8>, p: nat)
    requires |bitmap| == BITMAP_SIZE && p < TOTAL_PAGES
    ensures |WithClear(bitmap, p)| == BITMAP_SIZE && UsedIn(WithClear(bitmap, p)) == UsedIn(bitmap) - {p}
  {
    hide IsSet, Mask;
    forall q: nat | q < TOTAL_PAGES
      ensures IsSet(WithClear(bitmap, p), q) <==> IsSet(bitmap, q) && q != p
    {
      ClearPageAt(bitmap, p, q);
    }
  }

  lemma NothingUsed(bitmap: seq<bv8>)
    requires |bitmap| == BITMAP_SIZE && forall i | 0 <= i < BITMAP_SIZE :: bitmap[i] == 0
    ensures UsedIn(bitmap) == {}
  {
    forall q: nat | q < TOTAL_PAGES
      ensures !IsSet(bitmap, q)
    {
      assert bitmap[q / 8] == 0;
    }
  }

  // ---- reservations ---------------------------------------------------------------------

  /** Page `p` shares a byte with [base, base + length). */
  predicate Overlaps(p: nat, base: nat, length: nat) {
    0 < length && base < (p + 1) * PAGE && p * PAGE < base + length
  }

  /** What the kernel reads from the tocinboot_info block. */
  datatype Info = Info(hasMap: bool, entries: seq<Entry>, hasFramebuffer: bool, fbBase: nat, fbPitch: nat,
                       fbHeight: nat)

  ghost predicate Clean(info: Info) {
    && (forall i | 0 <= i < |info.entries| :: info.entries[i].base < U64 && info.entries[i].length < U64)
    && info.fbBase < U64 && info.fbPitch < 0x1_0000_0000 && info.fbHeight < 0x1_0000_0000
  }

  /** Some non-usable entry among the first `n` touches page `p`. */
  ghost predicate TouchesReserved(entries: seq<Entry>, n: nat, p: nat)
    requires n <= |entries|
  {
    exists i :: 0 <= i < n && entries[i].kind != USABLE && Overlaps(p, entries[i].base, entries[i].length)
  }

  ghost predicate TouchesFramebuffer(info: Info, p: nat) {
    info.hasFramebuffer && info.fbBase != 0 && Overlaps(p, info.fbBase, info.fbPitch * info.fbHeight)
  }

  /** The pages that must never be handed out. */
  ghost predicate Forbidden(info: Info, p: nat) {
    p < LOW_PAGES || (info.hasMap && TouchesReserved(info.entries, |info.entries|, p)) || TouchesFramebuffer(info, p)
  }

  lemma Rounding(base: nat, length: nat, end: nat, first: nat, last: nat)
    requires 0 < length < U64 && base < MEMORY_SIZE
    requires end == if base + length > MEMORY_SIZE then MEMORY_SIZE else base + length
    requires first == base / PAGE && last == (end + PAGE - 1) / PAGE
    ensures first <= last <= TOTAL_PAGES
    ensures forall p: nat | p < TOTAL_PAGES :: first <= p < last <==> Overlaps(p, base, length)
  {
  }

  lemma Below(x: nat, y: nat, z: nat)
    requires y < z
    ensures x * y <= x * z
  {
  }

  lemma FramebufferSize(pitch: nat, height: nat)
    requires pitch < 0x1_0000_0000 && height < 0x1_0000_0000
    ensures pitch * height < U64
  {
    Below(pitch, height, 0x1_0000_0000);
  }

  lemma UsedIff(bitmap: seq<bv8>, p: nat)
    requires |bitmap| == BITMAP_SIZE && p < TOTAL_PAGES
    ensures p in UsedIn(bitmap) <==> bitmap[p / 8] & Mask(p % 8) != 0
  {
  }

  lemma SplitWithout(all: set<nat>, a: set<nat>, b: set<nat>, p: nat)
    requires all == a + b && a !! b
    ensures all - {p} == (a - {p}) + (b - {p}) && (a - {p}) !! (b - {p})
    ensures p !in all ==> all - {p} == all
  {
  }

  // ---- the allocator ---------------------------------------------------------------------

  class Allocator {
    const bitmap: array<bv8>
    var usedPages: int

    /** Pages reserved at boot, and pages handed out and not yet freed. */
    ghost var reserved: set<nat>
    ghost var out: set<nat>

    ghost predicate Counted()
      reads this, bitmap
    {
      bitmap.Length == BITMAP_SIZE && usedPages == |UsedIn(bitmap[..])|
    }

    ghost predicate Valid()
      reads this, bitmap
    {
      Counted() && UsedIn(bitmap[..]) == reserved + out && reserved !! out && 0 in reserved
    }

    constructor ()
      ensures Counted() && fresh(bitmap) && UsedIn(bitmap[..]) == {}
    {
      bitmap := new bv8[BITMAP_SIZE](_ => 0);
      usedPages := 0;
      new;
      NothingUsed(bitmap[..]);
    }

    /** pmm_set_page_used counts the page without looking whether it was used, so the counter drifts when it was. */
    method SetPageUsed(page: nat)
      requires bitmap.Length == BITMAP_SIZE && page < TOTAL_PAGES
      modifies this`usedPages, bitmap
      ensures UsedIn(bitmap[..]) == old(UsedIn(bitmap[..])) + {page}
      ensures usedPages - |UsedIn(bitmap[..])|
              == old(usedPages - |UsedIn(bitmap[..])|) + if page in old(UsedIn(bitmap[..])) then 1 else 0
    {
      hide IsSet, Mask, UsedIn;
      SetPage(bitmap[..], page);
      var b, bit := page / 8, page % 8;
      bitmap[b] := bitmap[b] | Mask(bit);
      usedPages := usedPages + 1;
      assert bitmap[..] == WithSet(old(bitmap[..]), page);
    }

    /** The bit test of every loop below. */
    method IsUsed(page: nat) returns (used: bool)
      requires bitmap.Length == BITMAP_SIZE && page < TOTAL_PAGES
      ensures used <==> page in UsedIn(bitmap[..])
    {
      UsedIff(bitmap[..], page);
      var b, bit := page / 8, page % 8;
      used := bitmap[b] & Mask(bit) != 0;
    }

    method ClearPageUsed(page: nat)
      requires Counted() && page < TOTAL_PAGES && page in UsedIn(bitmap[..])
      modifies this`usedPages, bitmap
      ensures Counted() && UsedIn(bitmap[..]) == old(UsedIn(bitmap[..])) - {page}
    {
      hide IsSet, Mask, UsedIn;
      ClearPage(bitmap[..], page);
      var b, bit := page / 8, page % 8;
      bitmap[b] := bitmap[b] & !Mask(bit);
      usedPages := usedPages - 1;
      assert bitmap[..] == WithClear(old(bitmap[..]), page);
    }

    /** pmm_init: everything free but the first 2 MiB. */
    method Init()
      requires bitmap.Length == BITMAP_SIZE
      modifies this, bitmap
      ensures Counted() && forall p: nat | p < TOTAL_PAGES :: p in UsedIn(bitmap[..]) <==> p < LOW_PAGES
    {
      hide IsSet, Mask, UsedIn;
      usedPages := 0;
      for i := 0 to BITMAP_SIZE
        invariant usedPages == 0 && forall j | 0 <= j < i :: bitmap[j] == 0
      {
        bitmap[i] := 0;
      }
      NothingUsed(bitmap[..]);
      for i := 0 to LOW_PAGES
        invariant Counted() && forall p: nat | p < TOTAL_PAGES :: p in UsedIn(bitmap[..]) <==> p < i
      {
        SetPageUsed(i);
      }
    }

    /** pmm_reserve_range marks exactly the pages of the window that overlap the range. */
    method ReserveRange(base: nat, length: nat)
      requires Counted() && base < U64 && length < U64
      modifies this`usedPages, bitmap
      ensures Counted()
      ensures forall p: nat | p < TOTAL_PAGES ::
                p in UsedIn(bitmap[..]) <==> p in old(UsedIn(bitmap[..])) || Overlaps(p, base, length)
    {
      hide IsSet, Mask, UsedIn;
      if length == 0 || base >= MEMORY_SIZE {
        return;
      }
      var end := (base + length) % U64;
      if end < base || end > MEMORY_SIZE {
        end := MEMORY_SIZE;
      }
      var first, last := base / PAGE, (end + PAGE - 1) / PAGE;
      Rounding(base, length, end, first, last);
      for page := first to last
        invariant Counted()
        invariant forall p: nat | p < TOTAL_PAGES ::
                    p in UsedIn(bitmap[..]) <==> p in old(UsedIn(bitmap[..])) || first <= p < page
      {
        var used := IsUsed(page);
        if !used {
          SetPageUsed(page);
        }
      }
    }

    /** pmm_init_from_bootinfo; a null info leaves the pages of `Init`. */
    method InitFromBootinfo(present: bool, info: Info)
      requires bitmap.Length == BITMAP_SIZE && Clean(info)
      modifies this, bitmap
      ensures Valid() && out == {}
      ensures forall p: nat | p < TOTAL_PAGES ::
                p in reserved <==> if present then Forbidden(info, p) else p < LOW_PAGES
    {
      hide IsSet, Mask, UsedIn, Overlaps;
      Init();
      if present {
        if info.hasMap {
          ReserveMap(info.entries);
        }
        if info.hasFramebuffer && info.fbBase != 0 {
          FramebufferSize(info.fbPitch, info.fbHeight);
          ReserveRange(info.fbBase, info.fbPitch * info.fbHeight);
        }
      }
      reserved, out := UsedIn(bitmap[..]), {};
    }

    method ReserveMap(entries: seq<Entry>)
      requires Counted() && forall i | 0 <= i < |entries| :: entries[i].base < U64 && entries[i].length < U64
      modifies this`usedPages, bitmap
      ensures Counted()
      ensures forall p: nat | p < TOTAL_PAGES ::
                p in UsedIn(bitmap[..]) <==> p in old(UsedIn(bitmap[..])) || TouchesReserved(entries, |entries|, p)
    {
      hide IsSet, Mask, UsedIn, Overlaps;
      for i := 0 to |entries|
        invariant Counted()
        invariant forall p: nat | p < TOTAL_PAGES ::
                    p in UsedIn(bitmap[..]) <==> p in old(UsedIn(bitmap[..])) || TouchesReserved(entries, i, p)
      {
        var e := entries[i];
        if e.kind != USABLE {
          ReserveRange(e.base, e.length);
        }
      }
    }

    /** pmm_alloc_page: the lowest free page, or 0 when there is none. */
    method AllocPage() returns (address: nat)
      requires Valid()
      modifies this, bitmap
      ensures Valid() && reserved == old(reserved)
      ensures address == 0 <==> forall q: nat | q < TOTAL_PAGES :: q in old(reserved + out)
      ensures address == 0 ==> out == old(out)
      ensures address != 0 ==>
                var page := address / PAGE;
                && address == page * PAGE && page < TOTAL_PAGES
                && page !in old(reserved + out) && out == old(out) + {page}
                && forall q: nat | q < page :: q in old(reserved + out)
    {
      hide IsSet, Mask, UsedIn;
      for i := 0 to TOTAL_PAGES
        invariant Valid() && reserved == old(reserved) && out == old(out)
        invariant forall q: nat | q < i :: q in reserved + out
      {
        var used := IsUsed(i);
        if !used {
          SetPageUsed(i);
          out := out + {i};
          return i * PAGE;
        }
      }
      address := 0;
    }

    /**
     pmm_free_page: freeing a free page changes nothing. A reserved page loses its
     reservation, and page 0, whose address stands for no memory, must not.
     */
    method FreePage(address: nat)
      requires Valid() && address < MEMORY_SIZE
      modifies this, bitmap
      ensures reserved == old(reserved) - {address / PAGE} && out == old(out) - {address / PAGE}
      ensures Counted() && UsedIn(bitmap[..]) == reserved + out
      ensures Valid() <==> address / PAGE != 0
    {
      hide IsSet, Mask, UsedIn;
      var page := address / PAGE;
      var used := IsUsed(page);
      if used {
        ClearPageUsed(page);
      }
      SplitWithout(old(UsedIn(bitmap[..])), reserved, out, page);
      reserved, out := reserved - {page}, out - {page};
    }

    /** Any run of allocations and frees in which callers free only pages they hold. */
    method Run(ops: seq<Op>) returns (handed: seq<nat>)
      requires Valid() && out == {}
      modifies this, bitmap
      ensures Valid() && reserved == old(reserved)
      ensures forall address | address in handed ::
                address % PAGE == 0 && address < MEMORY_SIZE && address / PAGE !in reserved
    {
      hide IsSet, Mask, UsedIn;
      handed := [];
      var held: set<nat> := {};
      for i := 0 to |ops|
        invariant Valid() && reserved == old(reserved) && held == out
        invariant forall address | address in handed ::
                    address % PAGE == 0 && address < MEMORY_SIZE && address / PAGE !in reserved
      {
        match ops[i]
        case Alloc =>
          var address := AllocPage();
          if address != 0 {
            handed := handed + [address];
            held := held + {address / PAGE};
          }
        case Free(address) =>
          if address < MEMORY_SIZE && address / PAGE in held {
            FreePage(address);
            held := held - {address / PAGE};
          }
      }
    }
  }

  datatype Op = Alloc | Free(address: nat)

  // ---- from firmware to allocator ----------------------------------------------------------

  /** No byte of the page at `address` is in a non-usable firmware descriptor or in the framebuffer. */
  ghost predicate SafePage(raw: seq<Descriptor>, info: Info, address: nat) {
    forall a: nat | address <= a < address + PAGE ::
      && NotReserved(raw, a)
      && !(info.hasFramebuffer && info.fbBase != 0 && info.fbBase <= a < info.fbBase + info.fbPitch * info.fbHeight)
  }

  ghost predicate NotReserved(raw: seq<Descriptor>, a: nat) {
    forall k: nat | k != USABLE :: RawCount(raw, a, k) == 0
  }

  lemma {:induction false} NotForbiddenIsSafe(raw: seq<Descriptor>, info: Info, page: nat)
    requires NoWrap(raw) && info.hasMap && info.entries == Normal(raw) && !Forbidden(info, page)
    ensures SafePage(raw, info, page * PAGE)
  {
    hide Normal, Count, RawCount, Sorted, Sane, Coalesced;
    Normalised(raw);
    forall a: nat | page * PAGE <= a < page * PAGE + PAGE
      ensures NotReserved(raw, a)
    {
      forall k: nat | k != USABLE
        ensures RawCount(raw, a, k) == 0
      {
        if Count(info.entries, a, k) > 0 {
          var i := CountWitness(info.entries, a, k);
        }
      }
    }
  }

  /**
   Boot to allocator: normalise the firmware map, initialise the allocator from
   it, and run it. Nothing handed out overlaps reserved memory or the
   framebuffer, and the reported usable memory is the firmware's.
   */
  method Boot(raw: seq<Descriptor>, buffer: array<Entry>, cap: nat, fb: Info, pmm: Allocator, ops: seq<Op>)
    returns (count: int, usable: nat, handed: seq<nat>)
    requires NoWrap(raw) && cap <= buffer.Length && pmm.bitmap.Length == BITMAP_SIZE && Clean(fb)
    modifies buffer, pmm, pmm.bitmap
    ensures count == -1 <==> NonEmpty(raw) > cap
    ensures count != -1 ==> usable == PAGE * UsablePages(raw) % U64
    ensures count != -1 && DescribedOnce(raw) ==> usable == PAGE * UsablePages(raw)
    ensures count != -1 ==> pmm.Valid()
    ensures count != -1 ==> forall address | address in handed :: SafePage(raw, fb, address)
  {
    hide Normal, Count, RawCount, Sorted, Coalesced, IsSet, Mask, UsedIn, SafePage, NonEmpty, Forbidden, UsableLength,
         UsablePages, DescribedOnce;
    usable, handed := 0, [];
    count := Normalize(raw, buffer, cap);
    if count != -1 {
      Normalised(raw);
      var info := fb.(hasMap := true, entries := buffer[..count]);
      usable := UsableBytes(info.entries);
      UsableConserved(raw);
      if DescribedOnce(raw) { UsableFits(raw); }
      pmm.InitFromBootinfo(true, info);
      handed := pmm.Run(ops);
      forall address | address in handed
        ensures SafePage(raw, fb, address)
      {
        NotForbiddenIsSafe(raw, info, address / PAGE);
        SameFramebuffer(raw, info, fb, address);
      }
    }
  }

  lemma SameFramebuffer(raw: seq<Descriptor>, info: Info, fb: Info, address: nat)
    requires SafePage(raw, info, address)
    requires fb == info.(hasMap := fb.hasMap, entries := fb.entries)
    ensures SafePage(raw, fb, address)
  {
  }
}
