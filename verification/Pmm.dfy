/** The physical frame allocator: a byte bitmap in which a clear bit is a free page. */
module Pmm {
  import opened Bytes

  const PAGE_SIZE := 4096

  datatype MemKind = Usable | AcpiReclaimable | BootloaderReclaimable | OtherKind

  /** One entry of the boot memory map. */
  datatype MemEntry = MemEntry(base: nat, length: nat, kind: MemKind)

  function AlignDown4k(x: nat): nat {
    x / 4096 * 4096
  }

  function AlignUp4k(x: nat): nat {
    (x + 4095) / 4096 * 4096
  }

  predicate OverlapsKernel(start: nat, end: nat, kernelStart: nat, kernelEnd: nat) {
    !(end <= kernelStart || start >= kernelEnd)
  }

  /** The aligned inside of a memory map entry, as the passes of `init_pmm` compute it. */
  function Start(e: MemEntry): nat { AlignUp4k(e.base) }

  function End(e: MemEntry): nat { AlignDown4k(e.base + e.length) }

  /** A non-empty aligned region that does not meet the kernel image. */
  predicate Taken(e: MemEntry, kernelStart: nat, kernelEnd: nat) {
    Start(e) < End(e) && !OverlapsKernel(Start(e), End(e), kernelStart, kernelEnd)
  }

  predicate Covers(e: MemEntry, kernelStart: nat, kernelEnd: nat, page: nat) {
    Taken(e, kernelStart, kernelEnd) && Start(e) <= page * 4096 < End(e)
  }

  predicate Accepted(k: MemKind) {
    k == Usable || k == AcpiReclaimable || k == BootloaderReclaimable
  }

  /** Some accepted region among the first `n` entries covers the page. */
  ghost predicate Offered(entries: seq<MemEntry>, n: nat, kernelStart: nat, kernelEnd: nat, page: nat)
    requires n <= |entries|
  {
    exists i :: 0 <= i < n && Accepted(entries[i].kind) && Covers(entries[i], kernelStart, kernelEnd, page)
  }

  /** The same for usable regions only. */
  ghost predicate Usables(entries: seq<MemEntry>, n: nat, kernelStart: nat, kernelEnd: nat, page: nat)
    requires n <= |entries|
  {
    exists i :: 0 <= i < n && entries[i].kind == Usable && Covers(entries[i], kernelStart, kernelEnd, page)
  }

  lemma NoUsables(entries: seq<MemEntry>, kernelStart: nat, kernelEnd: nat)
    ensures forall p: nat :: !Usables(entries, 0, kernelStart, kernelEnd, p)
  {
  }

  lemma UsablesNext(entries: seq<MemEntry>, i: nat, kernelStart: nat, kernelEnd: nat, page: nat)
    requires i < |entries|
    ensures Usables(entries, i + 1, kernelStart, kernelEnd, page) <==>
      Usables(entries, i, kernelStart, kernelEnd, page) || (entries[i].kind == Usable && Covers(entries[i], kernelStart, kernelEnd, page))
  {
    hide Covers;
  }

  /** An entry large enough to hold the bitmap. */
  predicate HoldsBitmap(e: MemEntry, kernelStart: nat, kernelEnd: nat, pages: nat) {
    e.kind == Usable && Taken(e, kernelStart, kernelEnd) && End(e) - Start(e) >= pages * 4096
  }

  /** The first such entry. */
  ghost predicate FirstHolding(entries: seq<MemEntry>, kernelStart: nat, kernelEnd: nat, pages: nat, i: nat) {
    && i < |entries| && HoldsBitmap(entries[i], kernelStart, kernelEnd, pages)
    && forall k :: 0 <= k < i ==> !HoldsBitmap(entries[k], kernelStart, kernelEnd, pages)
  }

  function Highest(entries: seq<MemEntry>): (h: nat)
    ensures forall e :: e in entries ==> e.base + e.length <= h
  {
    if entries == [] then 0
    else
      var rest := Highest(entries[..|entries| - 1]);
      var last := entries[|entries| - 1];
      assert entries == entries[..|entries| - 1] + [last];
      if last.base + last.length > rest then last.base + last.length else rest
  }

  function PageCount(entries: seq<MemEntry>): nat { AlignUp4k(Highest(entries)) / 4096 }

  function BitmapBytes(entries: seq<MemEntry>): nat { (PageCount(entries) + 7) / 8 }

  function BitmapPages(entries: seq<MemEntry>): nat { AlignUp4k(BitmapBytes(entries)) / 4096 }

  // ----- one byte of the bitmap

  function Mask(k: nat): bv8
    requires k < 8
  {
    (1 as bv8) << k
  }

  predicate HasBit(b: bv8, k: nat)
    requires k < 8
  {
    b & Mask(k) != 0
  }

  function WithBit(b: bv8, k: nat): bv8
    requires k < 8
  {
    b | Mask(k)
  }

  function WithoutBit(b: bv8, k: nat): bv8
    requires k < 8
  {
    b & !Mask(k)
  }

  lemma MasksMeet(k: nat, j: nat)
    requires k < 8 && j < 8
    ensures Mask(k) != 0
    ensures if j == k then Mask(k) == Mask(j) else Mask(k) != Mask(j) && Mask(k) & Mask(j) == 0
  {
  }

  lemma Masked(b: bv8, m: bv8, n: bv8)
    requires m != 0 && (n == m || m & n == 0)
    ensures (b | m) & n != 0 <==> n == m || b & n != 0
    ensures (b & !m) & n != 0 <==> n != m && b & n != 0
  {
  }

  lemma MaskCases(b: bv8, k: nat, j: nat)
    requires k < 8 && j < 8
    ensures HasBit(WithBit(b, k), j) <==> j == k || HasBit(b, j)
    ensures HasBit(WithoutBit(b, k), j) <==> j != k && HasBit(b, j)
  {
    hide Mask;
    MasksMeet(k, j);
    Masked(b, Mask(k), Mask(j));
  }

  /** The bit of `page` in a bitmap. */
  predicate InUse(bitmap: seq<bv8>, page: nat)
    requires page / 8 < |bitmap|
  {
    HasBit(bitmap[page / 8], page % 8)
  }

  lemma SetBit(bitmap: seq<bv8>, page: nat, p: nat)
    requires page / 8 < |bitmap| && p / 8 < |bitmap|
    ensures InUse(bitmap[page / 8 := WithBit(bitmap[page / 8], page % 8)], p) <==> p == page || InUse(bitmap, p)
  {
    hide HasBit, WithBit;
    MaskCases(bitmap[page / 8], page % 8, p % 8);
    assert p == page <==> p / 8 == page / 8 && p % 8 == page % 8;
  }

  lemma ClearBit(bitmap: seq<bv8>, page: nat, p: nat)
    requires page / 8 < |bitmap| && p / 8 < |bitmap|
    ensures InUse(bitmap[page / 8 := WithoutBit(bitmap[page / 8], page % 8)], p) <==> p != page && InUse(bitmap, p)
  {
    hide HasBit, WithoutBit;
    MaskCases(bitmap[page / 8], page % 8, p % 8);
    assert p == page <==> p / 8 == page / 8 && p % 8 == page % 8;
  }

  lemma AllOnes(k: nat)
    requires k < 8
    ensures HasBit(0xFF, k)
  {
  }

  /** The pages that can still be handed out: page 0 never is. */
  ghost function FreePages(bitmap: seq<bv8>, pageCount: nat): set<nat>
    requires pageCount <= 8 * |bitmap|
  {
    set p: nat | 1 <= p < pageCount && !InUse(bitmap, p)
  }

  /** `now` is `was` with the pages from `start` to `end` free. */
  ghost predicate ClearedBetween(was: seq<bv8>, now: seq<bv8>, start: nat, end: nat) {
    && |now| == |was|
    && forall p: nat :: p / 8 < |was| ==> (InUse(now, p) <==> !(start <= p * 4096 < end) && InUse(was, p))
  }

  lemma ClearedMore(was: seq<bv8>, mid: seq<bv8>, now: seq<bv8>, start: nat, addr: nat)
    requires start <= addr && addr % 4096 == 0 && ClearedBetween(was, mid, start, addr) && |now| == |mid|
    requires forall p: nat :: p / 8 < |mid| ==> (InUse(now, p) <==> p != addr / 4096 && InUse(mid, p))
    ensures ClearedBetween(was, now, start, addr + 4096)
  {
    hide InUse;
    forall p: nat | p / 8 < |was|
      ensures InUse(now, p) <==> !(start <= p * 4096 < addr + 4096) && InUse(was, p)
    {
      OnePageMore(start, addr, p);
    }
  }

  lemma OnePageMore(start: nat, addr: nat, p: nat)
    requires start <= addr && addr % 4096 == 0
    ensures start <= p * 4096 < addr + 4096 <==> start <= p * 4096 < addr || p == addr / 4096
  {
  }

  class Pmm {
    var bitmap: array<bv8>
    var pageCount: nat
    var bitmapPhys: nat
    var hhdmOffset: nat
    ghost var free: set<nat>

    /** The size of the bitmap fits the page count. */
    ghost predicate Sized()
      reads this
    {
      pageCount <= 8 * bitmap.Length
    }

    ghost predicate Valid()
      reads this, bitmap
    {
      Sized() && free == FreePages(bitmap[..], pageCount)
    }

    constructor ()
      ensures Valid() && pageCount == 0 && fresh(bitmap)
    {
      bitmap := new bv8[0];
      pageCount := 0;
      bitmapPhys := 0;
      hhdmOffset := 0;
      free := {};
    }

    method BitmapSet(page: nat)
      requires page / 8 < bitmap.Length
      modifies bitmap
      ensures forall p: nat :: p / 8 < bitmap.Length ==> (InUse(bitmap[..], p) <==> p == page || old(InUse(bitmap[..], p)))
    {
      ghost var was := bitmap[..];
      bitmap[page / 8] := WithBit(bitmap[page / 8], page % 8);
      assert bitmap[..] == was[page / 8 := WithBit(was[page / 8], page % 8)];
      forall p: nat | p / 8 < bitmap.Length
        ensures InUse(bitmap[..], p) <==> p == page || InUse(was, p)
      {
        SetBit(was, page, p);
      }
    }

    method BitmapClear(page: nat)
      requires page / 8 < bitmap.Length
      modifies bitmap
      ensures forall p: nat :: p / 8 < bitmap.Length ==> (InUse(bitmap[..], p) <==> p != page && old(InUse(bitmap[..], p)))
    {
      ghost var was := bitmap[..];
      bitmap[page / 8] := WithoutBit(bitmap[page / 8], page % 8);
      assert bitmap[..] == was[page / 8 := WithoutBit(was[page / 8], page % 8)];
      forall p: nat | p / 8 < bitmap.Length
        ensures InUse(bitmap[..], p) <==> p != page && InUse(was, p)
      {
        ClearBit(was, page, p);
      }
    }

    method BitmapTest(page: nat) returns (used: bool)
      requires page / 8 < bitmap.Length
      ensures used == InUse(bitmap[..], page)
    {
      used := HasBit(bitmap[page / 8], page % 8);
    }

    /** First fit over the bitmap: the lowest free page, or 0 exactly when no page is free. */
    method Alloc() returns (addr: nat)
      requires Valid()
      modifies this`free, bitmap
      ensures Valid()
      ensures addr == 0 <==> old(free) == {}
      ensures addr == 0 ==> free == old(free)
      ensures addr != 0 ==> addr % 4096 == 0 && addr / 4096 in old(free) && free == old(free) - {addr / 4096}
      ensures addr != 0 ==> forall p :: p in old(free) ==> addr / 4096 <= p
    {
      hide InUse;
      var i := 1;
      while i < pageCount
        invariant 1 <= i
        invariant bitmap[..] == old(bitmap[..]) && free == old(free)
        invariant forall p :: 1 <= p < i && p < pageCount ==> InUse(bitmap[..], p)
      {
        var used := BitmapTest(i);
        if !used {
          assert i in free;
          BitmapSet(i);
          free := free - {i};
          return i * 4096;
        }
        i := i + 1;
      }
      assert free == {};
      return 0;
    }

    /** `addr < end; addr += 4096` with a clear at every page. */
    method ClearRegion(start: nat, end: nat)
      requires start % 4096 == 0 && end % 4096 == 0 && start <= end && end / 4096 <= 8 * bitmap.Length
      modifies bitmap
      ensures forall p: nat :: p / 8 < bitmap.Length ==>
        (InUse(bitmap[..], p) <==> !(start <= p * 4096 < end) && old(InUse(bitmap[..], p)))
    {
      hide InUse;
      ghost var was := bitmap[..];
      var addr := start;
      while addr < end
        invariant start <= addr <= end && addr % 4096 == 0
        invariant ClearedBetween(was, bitmap[..], start, addr)
      {
        hide ClearedBetween;
        ghost var mid := bitmap[..];
        BitmapClear(addr / 4096);
        ClearedMore(was, mid, bitmap[..], start, addr);
        addr := addr + 4096;
      }
    }

    /** The first pass: one past the highest address of the memory map. */
    static method FindHighest(entries: seq<MemEntry>) returns (highest: nat)
      ensures highest == Highest(entries)
    {
      highest := 0;
      for i := 0 to |entries|
        invariant highest == Highest(entries[..i])
      {
        assert entries[..i + 1][..i] == entries[..i];
        var end := entries[i].base + entries[i].length;
        if end > highest {
          highest := end;
        }
      }
      assert entries[..|entries|] == entries;
    }

    /** The second pass: the first usable region that can hold the bitmap. */
    static method FindRegion(entries: seq<MemEntry>, kernelStart: nat, kernelEnd: nat, bitmapPages: nat)
      returns (found: bool, base: nat)
      ensures found <==> exists i :: 0 <= i < |entries| && HoldsBitmap(entries[i], kernelStart, kernelEnd, bitmapPages)
      ensures found ==> exists i: nat :: FirstHolding(entries, kernelStart, kernelEnd, bitmapPages, i) && base == Start(entries[i])
    {
      for i := 0 to |entries|
        invariant forall k :: 0 <= k < i ==> !HoldsBitmap(entries[k], kernelStart, kernelEnd, bitmapPages)
      {
        if entries[i].kind != Usable { continue; }
        var start := AlignUp4k(entries[i].base);
        var end := AlignDown4k(entries[i].base + entries[i].length);
        if end <= start { continue; }
        if OverlapsKernel(start, end, kernelStart, kernelEnd) { continue; }
        if end - start >= bitmapPages * 4096 {
          assert FirstHolding(entries, kernelStart, kernelEnd, bitmapPages, i);
          return true, start;
        }
      }
      return false, 0;
    }

    /** `init_pmm`: `memmap` and `hhdm` are the answers of the boot loader; `ok` is false where the kernel halts. */
    method Init(memmap: Option<seq<MemEntry>>, hhdm: Option<nat>, kernelStart: nat, kernelEnd: nat) returns (ok: bool)
      modifies this
      ensures ok <==> memmap.Some? && hhdm.Some? && exists i :: 0 <= i < |memmap.value| && HoldsBitmap(memmap.value[i], kernelStart, kernelEnd, BitmapPages(memmap.value))
      ensures ok ==> hhdmOffset == hhdm.value && Ready(memmap.value, kernelStart, kernelEnd)
    {
      if memmap.None? || hhdm.None? { return false; }
      hhdmOffset := hhdm.value;
      ok := Passes(memmap.value, kernelStart, kernelEnd);
    }

    /** What `init_pmm` leaves behind. */
    ghost predicate Ready(entries: seq<MemEntry>, kernelStart: nat, kernelEnd: nat)
      reads this, bitmap
    {
      && Valid() && pageCount == PageCount(entries) && free == Initial(entries, kernelStart, kernelEnd)
      && (exists i: nat :: FirstHolding(entries, kernelStart, kernelEnd, BitmapPages(entries), i) && bitmapPhys == Start(entries[i]))
      && forall p: nat :: p < pageCount ==> (!InUse(bitmap[..], p) <==> Offered(entries, |entries|, kernelStart, kernelEnd, p))
    }

    /** All its passes. */
    method Passes(entries: seq<MemEntry>, kernelStart: nat, kernelEnd: nat) returns (ok: bool)
      modifies this`bitmap, this`pageCount, this`bitmapPhys, this`free
      ensures ok <==> exists i :: 0 <= i < |entries| && HoldsBitmap(entries[i], kernelStart, kernelEnd, BitmapPages(entries))
      ensures ok ==> fresh(bitmap) && Ready(entries, kernelStart, kernelEnd)
    {
      hide InUse, AlignUp4k, Start, End, HoldsBitmap, Covers, Highest;
      var highest := FindHighest(entries);
      pageCount := AlignUp4k(highest) / 4096;
      var bitmapBytes := (pageCount + 7) / 8;
      var bitmapPages := AlignUp4k(bitmapBytes) / 4096;
      ok, bitmapPhys := FindRegion(entries, kernelStart, kernelEnd, bitmapPages);
      if !ok { return; }

      bitmap := new bv8[bitmapBytes];
      FillOnes();
      ClearUsable(entries, kernelStart, kernelEnd);
      ghost var at: nat :| FirstHolding(entries, kernelStart, kernelEnd, bitmapPages, at) && bitmapPhys == Start(entries[at]);
      Reserve(entries, kernelStart, kernelEnd, bitmapPages, at);
      ClearAccepted(entries, kernelStart, kernelEnd);
      free := FreePages(bitmap[..], pageCount);
    }

    method FillOnes()
      requires Sized()
      modifies bitmap
      ensures forall p: nat :: p < pageCount ==> InUse(bitmap[..], p)
    {
      for i := 0 to bitmap.Length
        invariant forall k :: 0 <= k < i ==> bitmap[k] == 0xFF
      {
        bitmap[i] := 0xFF;
      }
      forall p: nat | p < pageCount
        ensures InUse(bitmap[..], p)
      {
        AllOnes(p % 8);
      }
    }

    /** Marks the pages of the bitmap and page 0 as in use. */
    method Reserve(entries: seq<MemEntry>, kernelStart: nat, kernelEnd: nat, bitmapPages: nat, ghost at: nat)
      requires Sized() && pageCount == PageCount(entries)
      requires at < |entries| && bitmapPhys == Start(entries[at])
      requires HoldsBitmap(entries[at], kernelStart, kernelEnd, bitmapPages)
      modifies bitmap
      ensures forall p: nat :: p < pageCount ==>
        (InUse(bitmap[..], p) <==> p == 0 || bitmapPhys / 4096 <= p < bitmapPhys / 4096 + bitmapPages || old(InUse(bitmap[..], p)))
    {
      hide InUse;
      assert entries[at] in entries;
      for i := 0 to bitmapPages
        invariant forall p: nat :: p < pageCount ==>
          (InUse(bitmap[..], p) <==> bitmapPhys / 4096 <= p < bitmapPhys / 4096 + i || old(InUse(bitmap[..], p)))
      {
        BitmapSet(bitmapPhys / 4096 + i);
      }
      BitmapSet(0);
    }

    /** What both clearing passes do with one entry: free the pages of its aligned inside, unless that is
        empty or meets the kernel. */
    method ClearInside(e: MemEntry, kernelStart: nat, kernelEnd: nat)
      requires End(e) / 4096 <= 8 * bitmap.Length
      modifies bitmap
      ensures forall p: nat :: p / 8 < bitmap.Length ==>
        (InUse(bitmap[..], p) <==> !Covers(e, kernelStart, kernelEnd, p) && old(InUse(bitmap[..], p)))
    {
      hide InUse;
      var start := AlignUp4k(e.base);
      var end := AlignDown4k(e.base + e.length);
      if end <= start { return; }
      if OverlapsKernel(start, end, kernelStart, kernelEnd) { return; }
      ClearRegion(start, end);
    }

    lemma EntryFits(entries: seq<MemEntry>, i: nat)
      requires Sized() && pageCount == PageCount(entries) && i < |entries|
      ensures End(entries[i]) / 4096 <= pageCount
    {
      assert entries[i] in entries;
    }

    /** The pass that clears the usable regions. */
    method ClearUsable(entries: seq<MemEntry>, kernelStart: nat, kernelEnd: nat)
      requires Sized() && pageCount == PageCount(entries)
      requires forall p: nat :: p < pageCount ==> InUse(bitmap[..], p)
      modifies bitmap
      ensures forall p: nat :: p < pageCount ==> (!InUse(bitmap[..], p) <==> Usables(entries, |entries|, kernelStart, kernelEnd, p))
    {
      hide InUse, Usables, Covers, PageCount, End;
      NoUsables(entries, kernelStart, kernelEnd);
      for i := 0 to |entries|
        invariant forall p: nat :: p < pageCount ==> (!InUse(bitmap[..], p) <==> Usables(entries, i, kernelStart, kernelEnd, p))
      {
        forall p: nat
          ensures Usables(entries, i + 1, kernelStart, kernelEnd, p) <==>
            Usables(entries, i, kernelStart, kernelEnd, p) || (entries[i].kind == Usable && Covers(entries[i], kernelStart, kernelEnd, p))
        {
          UsablesNext(entries, i, kernelStart, kernelEnd, p);
        }
        if entries[i].kind != Usable { continue; }
        EntryFits(entries, i);
        ClearInside(entries[i], kernelStart, kernelEnd);
      }
    }

    /** The last pass, which clears every accepted region again. */
    method ClearAccepted(entries: seq<MemEntry>, kernelStart: nat, kernelEnd: nat)
      requires Sized() && pageCount == PageCount(entries)
      requires forall p: nat :: p < pageCount && !InUse(bitmap[..], p) ==> Offered(entries, |entries|, kernelStart, kernelEnd, p)
      modifies bitmap
      ensures forall p: nat :: p < pageCount ==>
        (!InUse(bitmap[..], p) <==> Offered(entries, |entries|, kernelStart, kernelEnd, p))
    {
      hide InUse, Covers, PageCount, End;
      for i := 0 to |entries|
        invariant forall p: nat :: p < pageCount && !InUse(bitmap[..], p) ==> Offered(entries, |entries|, kernelStart, kernelEnd, p)
        invariant forall p: nat :: p < pageCount && Offered(entries, i, kernelStart, kernelEnd, p) ==> !InUse(bitmap[..], p)
      {
        if entries[i].kind == Usable || entries[i].kind == AcpiReclaimable || entries[i].kind == BootloaderReclaimable {
          EntryFits(entries, i);
          ClearInside(entries[i], kernelStart, kernelEnd);
        }
      }
    }
  }

  /** The reservation of the bitmap's own pages never survives `init_pmm`: on every memory map it
      accepts, each of those pages is offered again by the last pass. Reserving none of them would
      need a bitmap of no pages, and there is always at least one. */
  lemma ReservationUndone(entries: seq<MemEntry>, kernelStart: nat, kernelEnd: nat, i: nat, page: nat)
    requires i < |entries| && HoldsBitmap(entries[i], kernelStart, kernelEnd, BitmapPages(entries))
    ensures BitmapPages(entries) >= 1
    ensures Start(entries[i]) / 4096 <= page < Start(entries[i]) / 4096 + BitmapPages(entries)
            ==> Offered(entries, |entries|, kernelStart, kernelEnd, page) && page < PageCount(entries)
  {
    assert entries[i] in entries;
    if Start(entries[i]) / 4096 <= page < Start(entries[i]) / 4096 + BitmapPages(entries) {
      assert Covers(entries[i], kernelStart, kernelEnd, page);
    }
  }

  // ----- runs of allocations

  ghost predicate IsMin(m: nat, s: set<nat>) {
    m in s && forall p :: p in s ==> m <= p
  }

  /** The frames `n` successive calls of `Alloc` return, 0 once none is left: each call is a step of
      the contract of `Alloc`. */
  ghost predicate AllocRun(free: set<nat>, pages: seq<nat>)
    decreases |pages|
  {
    pages != [] ==>
      if free == {} then pages[0] == 0 && AllocRun(free, pages[1..])
      else IsMin(pages[0], free) && AllocRun(free - {pages[0]}, pages[1..])
  }

  /** Over any run: strictly increasing non-zero free frames, then 0 for ever, exactly when the
      initially free frames are used up. */
  lemma {:induction false} RunIncreases(free: set<nat>, pages: seq<nat>)
    requires 0 !in free && AllocRun(free, pages)
    ensures forall i :: 0 <= i < |pages| ==> (pages[i] == 0 <==> |free| <= i)
    ensures forall i :: 0 <= i < |pages| && i < |free| ==> pages[i] in free
    ensures |pages| >= |free| ==> forall p :: p in free ==> p in pages
    ensures forall i, j :: 0 <= i < j < |pages| && j < |free| ==> pages[i] < pages[j]
    decreases |pages|
  {
    if pages != [] {
      if free == {} {
        RunIncreases(free, pages[1..]);
        forall i | 0 <= i < |pages| ensures pages[i] == 0 {
          if i > 0 { assert pages[i] == pages[1..][i - 1]; }
        }
      } else {
        var rest := free - {pages[0]};
        assert |rest| == |free| - 1;
        RunIncreases(rest, pages[1..]);
        assert pages == [pages[0]] + pages[1..];
        forall i | 0 < i < |pages|
          ensures (pages[i] == 0 <==> |free| <= i) && (i < |free| ==> pages[i] in rest)
        {
          assert pages[i] == pages[1..][i - 1];
        }
        forall i, j | 0 <= i < j < |pages| && j < |free|
          ensures pages[i] < pages[j]
        {
          assert pages[j] in rest;
          if i > 0 { assert pages[i] == pages[1..][i - 1] && pages[j] == pages[1..][j - 1]; }
        }
      }
    }
  }

  /** What `init_pmm` leaves to hand out. */
  ghost function Initial(entries: seq<MemEntry>, kernelStart: nat, kernelEnd: nat): set<nat> {
    set p: nat | 1 <= p < PageCount(entries) && Offered(entries, |entries|, kernelStart, kernelEnd, p)
  }

  /** So every page of the bitmap but page 0 is handed out by any run of allocations that is long enough. */
  lemma BitmapHandedOut(entries: seq<MemEntry>, kernelStart: nat, kernelEnd: nat, i: nat, page: nat, pages: seq<nat>)
    requires i < |entries| && HoldsBitmap(entries[i], kernelStart, kernelEnd, BitmapPages(entries))
    requires 0 < page && Start(entries[i]) / 4096 <= page < Start(entries[i]) / 4096 + BitmapPages(entries)
    requires AllocRun(Initial(entries, kernelStart, kernelEnd), pages) && |pages| >= |Initial(entries, kernelStart, kernelEnd)|
    ensures page in pages
  {
    ReservationUndone(entries, kernelStart, kernelEnd, i, page);
    RunIncreases(Initial(entries, kernelStart, kernelEnd), pages);
  }

  /** Page `q` lies inside the region: no byte of it is outside. */
  predicate PageInside(e: MemEntry, q: nat) { e.base <= q * 4096 && q * 4096 + 4096 <= e.base + e.length }

  /** Address `x` of page `q` is one of the kernel's. */
  predicate KernelAt(q: nat, x: nat, kernelStart: nat, kernelEnd: nat) { q * 4096 <= x < q * 4096 + 4096 && kernelStart <= x < kernelEnd }

  /** No page inside the region holds a byte of the kernel. */
  ghost predicate KernelFree(e: MemEntry, kernelStart: nat, kernelEnd: nat) {
    forall q: nat, x: nat :: PageInside(e, q) ==> !KernelAt(q, x, kernelStart, kernelEnd)
  }

  lemma InsideIff(e: MemEntry, q: nat)
    ensures PageInside(e, q) <==> Start(e) <= q * 4096 < End(e)
  {
    var h := e.base + e.length;
    assert End(e) == h / 4096 * 4096 && End(e) <= h < End(e) + 4096;
    assert Start(e) == (e.base + 4095) / 4096 * 4096 && e.base <= Start(e) < e.base + 4096;
  }

  lemma OverlapIff(e: MemEntry, kernelStart: nat, kernelEnd: nat)
    requires kernelStart < kernelEnd && Start(e) < End(e)
    ensures KernelFree(e, kernelStart, kernelEnd) <==> !OverlapsKernel(Start(e), End(e), kernelStart, kernelEnd)
  {
    if OverlapsKernel(Start(e), End(e), kernelStart, kernelEnd) {
      var x := if Start(e) < kernelStart then kernelStart else Start(e);
      InsideIff(e, x / 4096);
      assert KernelAt(x / 4096, x, kernelStart, kernelEnd);
    } else {
      forall q: nat, x: nat | PageInside(e, q)
        ensures !KernelAt(q, x, kernelStart, kernelEnd)
      {
        InsideIff(e, q);
        PageEndsIn(q, End(e) / 4096);
      }
    }
  }

  lemma PageEndsIn(q: nat, n: nat)
    ensures q * 4096 < n * 4096 ==> q * 4096 + 4096 <= n * 4096
  {
  }

  /** What `init_pmm` leaves to hand out, in terms of the memory map: every page but page 0 that lies inside a
      usable, ACPI-reclaimable or bootloader-reclaimable region no inner page of which holds a byte of the kernel. */
  lemma InitialExactly(entries: seq<MemEntry>, kernelStart: nat, kernelEnd: nat, page: nat)
    requires kernelStart < kernelEnd
    ensures page in Initial(entries, kernelStart, kernelEnd) <==>
      (page > 0 && exists e :: e in entries && e.kind in {Usable, AcpiReclaimable, BootloaderReclaimable}
                               && e.base <= page * 4096 && page * 4096 + 4096 <= e.base + e.length && KernelFree(e, kernelStart, kernelEnd))
  {
    hide Start, End, KernelFree, OverlapsKernel, PageCount;
    forall i | 0 <= i < |entries|
      ensures Covers(entries[i], kernelStart, kernelEnd, page) <==> PageInside(entries[i], page) && KernelFree(entries[i], kernelStart, kernelEnd)
      ensures PageInside(entries[i], page) ==> page < PageCount(entries)
    {
      InsideIff(entries[i], page);
      if Start(entries[i]) < End(entries[i]) { OverlapIff(entries[i], kernelStart, kernelEnd); }
      if PageInside(entries[i], page) { InsideCounted(entries, i, page); }
    }
  }

  /** The sizes: pages up to the highest end of a region, a bit for each, and pages for those bits, each rounded up. */
  lemma SizesExact(entries: seq<MemEntry>)
    ensures var n, b, h := PageCount(entries), BitmapPages(entries), Highest(entries);
      && n * 4096 >= h && (n > 0 ==> (n - 1) * 4096 < h)
      && b * 4096 * 8 >= n && (b > 0 ==> (b - 1) * 4096 * 8 < n)
      && (forall e :: e in entries ==> e.base + e.length <= h) && (h > 0 ==> exists e :: e in entries && e.base + e.length == h)
  {
    hide AlignUp4k, Highest;
    HighestIs(entries);
    UpToPage(Highest(entries));
    UpToByte(PageCount(entries));
    UpToPage(BitmapBytes(entries));
  }

  lemma UpToPage(x: nat)
    ensures var n := AlignUp4k(x) / 4096; n * 4096 >= x && (n > 0 ==> (n - 1) * 4096 < x)
  {
  }

  lemma UpToByte(n: nat)
    ensures var b := (n + 7) / 8; b * 8 >= n && b * 8 < n + 8
  {
  }

  lemma {:induction false} HighestIs(entries: seq<MemEntry>)
    ensures Highest(entries) > 0 ==> exists e :: e in entries && e.base + e.length == Highest(entries)
  {
    if entries != [] {
      var front, last := entries[..|entries| - 1], entries[|entries| - 1];
      HighestIs(front);
      assert entries == front + [last];
    }
  }

  /** A region holds the bitmap exactly if it is usable, meets no byte of the kernel in an inner page, and has that
      many pages inside; the bitmap goes to the first of them. */
  lemma HoldsExactly(e: MemEntry, kernelStart: nat, kernelEnd: nat, pages: nat)
    requires kernelStart < kernelEnd
    ensures HoldsBitmap(e, kernelStart, kernelEnd, pages) <==>
      (e.kind == Usable && KernelFree(e, kernelStart, kernelEnd)
       && exists q: nat :: PageInside(e, q) && q * 4096 < e.base + 4096 && (q + pages) * 4096 <= e.base + e.length)
    ensures HoldsBitmap(e, kernelStart, kernelEnd, pages) ==>
      Start(e) % 4096 == 0 && e.base <= Start(e) < e.base + 4096 && PageInside(e, Start(e) / 4096)
  {
    hide KernelFree, OverlapsKernel, Start, End;
    StartEnd(e);
    InsideIff(e, Start(e) / 4096);
    if Start(e) < End(e) {
      OverlapIff(e, kernelStart, kernelEnd);
    }
    forall q: nat | PageInside(e, q) && q * 4096 < e.base + 4096
      ensures q * 4096 == Start(e) && Start(e) < End(e)
    {
      InsideIff(e, q);
    }
    if HoldsBitmap(e, kernelStart, kernelEnd, pages) {
      assert PageInside(e, Start(e) / 4096);
    }
    assert forall q: nat :: (q + pages) * 4096 == q * 4096 + pages * 4096;
  }

  lemma StartEnd(e: MemEntry)
    ensures Start(e) % 4096 == 0 && e.base <= Start(e) < e.base + 4096
    ensures End(e) % 4096 == 0 && End(e) <= e.base + e.length < End(e) + 4096
    ensures forall n: nat :: n * 4096 <= e.base + e.length <==> n * 4096 <= End(e)
  {
  }

  lemma InsideCounted(entries: seq<MemEntry>, i: nat, page: nat)
    requires i < |entries| && PageInside(entries[i], page)
    ensures page < PageCount(entries)
  {
    assert entries[i] in entries;
  }

  /** `_kernel_start`: the kernel is linked to the last two gibibytes of the address space. */
  const KERNEL_LINK := 0xFFFF_FFFF_8000_0000

  /** Regions are physical and the kernel's addresses are virtual: the overlap test never excludes anything. */
  lemma KernelNeverMet(e: MemEntry, kernelStart: nat, kernelEnd: nat)
    requires kernelStart >= KERNEL_LINK && e.base + e.length <= KERNEL_LINK
    ensures Taken(e, kernelStart, kernelEnd) <==> Start(e) < End(e)
  {
  }

  /** So every page but page 0 inside a region of an accepted type can be handed out, those of memory the boot
      loader is done with, which may still hold the page tables it made, included. */
  lemma AcceptedHandedOut(entries: seq<MemEntry>, kernelStart: nat, kernelEnd: nat, i: nat, page: nat)
    requires kernelStart >= KERNEL_LINK && i < |entries| && entries[i].base + entries[i].length <= KERNEL_LINK
    requires Accepted(entries[i].kind) && 0 < page && Start(entries[i]) <= page * 4096 < End(entries[i])
    ensures page in Initial(entries, kernelStart, kernelEnd)
  {
    assert entries[i] in entries;
    KernelNeverMet(entries[i], kernelStart, kernelEnd);
    assert Covers(entries[i], kernelStart, kernelEnd, page);
    assert Offered(entries, |entries|, kernelStart, kernelEnd, page);
  }

  /** One mebibyte of memory behind the first one: a map that is accepted, whose bitmap is page 256, the first
      page handed out. */
  lemma SmallMap()
    ensures var entries := [MemEntry(0x10_0000, 0x10_0000, Usable)];
      && HoldsBitmap(entries[0], KERNEL_LINK, KERNEL_LINK + 0x10_0000, BitmapPages(entries)) && BitmapPages(entries) == 1
      && Start(entries[0]) / 4096 == 256 && IsMin(256, Initial(entries, KERNEL_LINK, KERNEL_LINK + 0x10_0000))
  {
    var entries := [MemEntry(0x10_0000, 0x10_0000, Usable)];
    assert entries[..0] == [] && Highest(entries) == 0x20_0000;
    assert PageCount(entries) == 512 && BitmapBytes(entries) == 64;
    AcceptedHandedOut(entries, KERNEL_LINK, KERNEL_LINK + 0x10_0000, 0, 256);
  }
}
