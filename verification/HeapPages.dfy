/** The pages under the kernel heap: every page up to the heap's end is mapped to a frame of its own that only
    the kernel may use, under the root that grows the heap and under all that share its upper half. */
module HeapPages {
  import opened Bytes
  import opened Paging
  import opened Mapping
  import opened MappingRuns
  import HL = HeapLists

  const PAGE_SIZE := 4096

  /** The pages from the start of the heap to the end of the address space. */
  const HEAP_PAGES := 0x4_0000

  /** The page `i` pages after the start of the heap. */
  function HeapVpn(i: nat): Vpn
    requires i < HEAP_PAGES
  {
    0xF_FFFC_0000 + i
  }

  /** `PTE_PRESENT | PTE_WRITE` */
  const HEAP_PAGE_FLAGS := 3

  lemma HeapVpnOf(i: nat)
    requires i < HEAP_PAGES
    ensures VpnOf(HL.HEAP_START + i * PAGE_SIZE) == HeapVpn(i) && Upper(HeapVpn(i)) && Index(HeapVpn(i), 3) == 511
  {
    assert (HL.HEAP_START + i * PAGE_SIZE) / 4096 == 0xF_FFFF_FFFC_0000 + i;
  }

  /** Page `i` of the heap is writable, for the kernel only, in a frame that is neither free nor a table. */
  ghost predicate PageOwned(s: Space, free: set<nat>, root: nat, i: nat)
    requires i < HEAP_PAGES
  {
    var l := Walk(s.ram, root, HeapVpn(i), 3);
    && l.Mapped? && l == PageLeaf(l.entry) && l.write && !l.user
    && l.entry == PageEntry(Frame(l.entry) * 4096, HEAP_PAGE_FLAGS) && Frame(l.entry) < FRAMES
    && Frame(l.entry) in s.ram && Frame(l.entry) !in s.tags && Frame(l.entry) !in free
  }

  predicate SamePlace(m: Ram, root: nat, i: nat, j: nat)
    requires i < HEAP_PAGES && j < HEAP_PAGES
  {
    var l, l' := Walk(m, root, HeapVpn(i), 3), Walk(m, root, HeapVpn(j), 3);
    l.Mapped? && l'.Mapped? && Frame(l.entry) == Frame(l'.entry)
  }

  /** The first `n` pages are owned, each with a frame of its own. */
  ghost predicate FrontMapped(s: Space, free: set<nat>, root: nat, n: nat) {
    && n <= HEAP_PAGES
    && (forall i :: 0 <= i < n ==> PageOwned(s, free, root, i))
    && (forall i, j :: 0 <= i < j < n ==> !SamePlace(s.ram, root, i, j))
  }

  /** No large page stands in the way of the others. */
  ghost predicate RestClear(m: Ram, root: nat, n: nat) {
    forall i :: n <= i < HEAP_PAGES ==> PathClear(m, root, HeapVpn(i))
  }

  ghost predicate HeapMapped(s: Space, free: set<nat>, root: nat, n: nat) {
    FrontMapped(s, free, root, n) && RestClear(s.ram, root, n)
  }

  /** A step after which no owned frame is a table or free. */
  ghost predicate FramesKept(s: Space, s': Space, free: set<nat>, free': set<nat>) {
    s.ram.Keys <= s'.ram.Keys && free' <= free && s'.tags.Keys <= s.tags.Keys + free
  }

  predicate KeptAt(m: Ram, m': Ram, root: nat, root': nat, i: nat)
    requires i < HEAP_PAGES
  {
    Widens(Walk(m, root, HeapVpn(i), 3), Walk(m', root', HeapVpn(i), 3))
  }

  /** Owned pages stay owned, under the same root or another one that translates them alike. */
  lemma OwnedKept(s: Space, s': Space, free: set<nat>, free': set<nat>, root: nat, root': nat, i: nat)
    requires i < HEAP_PAGES && PageOwned(s, free, root, i) && KeptAt(s.ram, s'.ram, root, root', i)
    requires FramesKept(s, s', free, free')
    ensures PageOwned(s', free', root', i) && Walk(s'.ram, root', HeapVpn(i), 3) == Walk(s.ram, root, HeapVpn(i), 3)
  {
    hide Walk;
    FullLeafStays(s'.ram, root', HeapVpn(i), Walk(s.ram, root, HeapVpn(i), 3).entry);
  }

  lemma FrontKept(s: Space, s': Space, free: set<nat>, free': set<nat>, root: nat, root': nat, n: nat)
    requires FrontMapped(s, free, root, n) && FramesKept(s, s', free, free')
    requires forall i :: 0 <= i < n ==> KeptAt(s.ram, s'.ram, root, root', i)
    ensures FrontMapped(s', free', root', n)
  {
    hide Walk, PageOwned, KeptAt, FramesKept;
    forall i | 0 <= i < n
      ensures PageOwned(s', free', root', i)
    {
      OwnedKept(s, s', free, free', root, root', i);
    }
    forall i, j | 0 <= i < j < n
      ensures !SamePlace(s'.ram, root', i, j)
    {
      OwnedKept(s, s', free, free', root, root', i);
      OwnedKept(s, s', free, free', root, root', j);
      assert !SamePlace(s.ram, root, i, j);
    }
  }

  lemma MappedKept(s: Space, s': Space, free: set<nat>, free': set<nat>, root: nat, root': nat, n: nat)
    requires HeapMapped(s, free, root, n) && FramesKept(s, s', free, free')
    requires forall i :: 0 <= i < HEAP_PAGES ==> KeptAt(s.ram, s'.ram, root, root', i)
    ensures HeapMapped(s', free', root', n)
  {
    hide Walk, FrontMapped, FramesKept;
    assert n <= HEAP_PAGES by { FrontBound(s, free, root, n); }
    FrontKept(s, s', free, free', root, root', n);
    forall i | n <= i < HEAP_PAGES
      ensures PathClear(s'.ram, root', HeapVpn(i))
    {
      assert KeptAt(s.ram, s'.ram, root, root', i);
    }
  }

  lemma FrontBound(s: Space, free: set<nat>, root: nat, n: nat)
    requires FrontMapped(s, free, root, n)
    ensures n <= HEAP_PAGES
  {
  }

  /** A map of any page outside the heap leaves the heap mapped. */
  lemma HeapSurvivesMap(s: Space, s': Space, free: set<nat>, free': set<nat>, root: nat, n: nat, v: Vpn, e: nat)
    requires HeapMapped(s, free, root, n) && IsRoot(s.tags, root) && MapStep(s, s', root, v, e)
    requires free' <= free && s'.tags.Keys <= s.tags.Keys + free && v < HeapVpn(0)
    ensures HeapMapped(s', free', root, n)
  {
    hide Walk, Typed, HeapMapped;
    forall i | 0 <= i < HEAP_PAGES
      ensures KeptAt(s.ram, s'.ram, root, root, i)
    {
      assert HeapVpn(i) != v;
    }
    MappedKept(s, s', free, free', root, root, n);
  }

  /** The next page of the heap, mapped to a frame that was free. */
  lemma HeapGrows(s: Space, s': Space, free: set<nat>, free': set<nat>, root: nat, n: nat, f: nat)
    requires HeapMapped(s, free, root, n) && n < HEAP_PAGES && IsRoot(s.tags, root)
    requires f in free && f !in s.tags && f in s'.ram && f * 4096 < TWO52
    requires free' <= free - {f} && s'.tags.Keys <= s.tags.Keys + (free - {f})
    requires MapStep(s, s', root, HeapVpn(n), PageEntry(f * 4096, HEAP_PAGE_FLAGS))
    ensures HeapMapped(s', free', root, n + 1)
  {
    hide Walk, Typed, PageEntry, FrontMapped, PathClear;
    forall i | 0 <= i < HEAP_PAGES && i != n
      ensures KeptAt(s.ram, s'.ram, root, root, i)
    {
      assert HeapVpn(i) != HeapVpn(n);
    }
    FrontGrows(s, s', free, free', root, n, f);
    forall i | n + 1 <= i < HEAP_PAGES
      ensures PathClear(s'.ram, root, HeapVpn(i))
    {
      ClearKept(s, s', root, i);
    }
  }

  lemma FrontGrows(s: Space, s': Space, free: set<nat>, free': set<nat>, root: nat, n: nat, f: nat)
    requires FrontMapped(s, free, root, n) && n < HEAP_PAGES && f in free && f in s'.ram && f !in s'.tags && f * 4096 < TWO52
    requires FramesKept(s, s', free, free') && f !in free'
    requires forall i :: 0 <= i < n ==> KeptAt(s.ram, s'.ram, root, root, i)
    requires Walk(s'.ram, root, HeapVpn(n), 3) == PageLeaf(PageEntry(f * 4096, HEAP_PAGE_FLAGS))
    ensures FrontMapped(s', free', root, n + 1)
  {
    hide Walk, PageEntry, KeptAt, PageLeaf;
    HeapEntry(f);
    FrontKept(s, s', free, free', root, root, n);
    assert PageOwned(s', free', root, n) by { NewOwned(s', free', root, n, PageEntry(f * 4096, HEAP_PAGE_FLAGS)); }
    forall i | 0 <= i < n
      ensures !SamePlace(s'.ram, root, i, n)
    {
      OwnedKept(s, s', free, free', root, root, i);
      OwnedNotFree(s, free, root, i);
      MappedLeaf(PageEntry(f * 4096, HEAP_PAGE_FLAGS));
    }
  }

  lemma MappedLeaf(e: nat)
    requires Present(e)
    ensures PageLeaf(e).Mapped? && PageLeaf(e).entry == e
  {
  }

  lemma NextClear(s: Space, free: set<nat>, root: nat, n: nat)
    requires HeapMapped(s, free, root, n) && n < HEAP_PAGES
    ensures PathClear(s.ram, root, HeapVpn(n))
  {
    hide FrontMapped;
  }

  lemma ClearKept(s: Space, s': Space, root: nat, i: nat)
    requires i < HEAP_PAGES && KeptAt(s.ram, s'.ram, root, root, i) && PathClear(s.ram, root, HeapVpn(i))
    ensures PathClear(s'.ram, root, HeapVpn(i))
  {
  }

  lemma OwnedNotFree(s: Space, free: set<nat>, root: nat, i: nat)
    requires i < HEAP_PAGES && PageOwned(s, free, root, i)
    ensures Walk(s.ram, root, HeapVpn(i), 3).Mapped? && Frame(Walk(s.ram, root, HeapVpn(i), 3).entry) !in free
  {
  }

  lemma NewOwned(s: Space, free: set<nat>, root: nat, n: nat, e: nat)
    requires n < HEAP_PAGES && Walk(s.ram, root, HeapVpn(n), 3) == PageLeaf(e)
    requires Present(e) && Writable(e) && !User(e) && Frame(e) in s.ram && Frame(e) !in s.tags && Frame(e) !in free
    requires e == PageEntry(Frame(e) * 4096, HEAP_PAGE_FLAGS)
    ensures PageOwned(s, free, root, n)
  {
  }

  /** The flags of a heap page: present and writable, and nothing else. */
  lemma OwnedBits(s: Space, free: set<nat>, root: nat, i: nat, k: nat)
    requires i < HEAP_PAGES && PageOwned(s, free, root, i) && (k < 12 || k >= 52)
    ensures Bit(Walk(s.ram, root, HeapVpn(i), 3).entry, k) <==> k <= 1
  {
    hide Walk, PageEntry, Bit;
    var f := Frame(Walk(s.ram, root, HeapVpn(i), 3).entry);
    PageEntryBit(f * 4096, HEAP_PAGE_FLAGS, k);
    SmallFlags(k);
    if k >= 52 { NoHighBit(f * 4096, k); }
  }

  lemma SmallFlags(k: nat)
    ensures Bit(HEAP_PAGE_FLAGS, k) <==> k <= 1
  {
    if k >= 2 {
      ShiftSum(3, 2, k - 2);
      ShiftZero(k - 2);
      assert Shift(3, 2) == 0;
    }
  }

  lemma HeapEntry(f: nat)
    requires f * 4096 < TWO52
    ensures var e := PageEntry(f * 4096, HEAP_PAGE_FLAGS); Present(e) && Writable(e) && !User(e) && Frame(e) == f
  {
    hide PageEntry;
    PageEntryBits(f * 4096, HEAP_PAGE_FLAGS);
  }

  // ----- other roots

  /** A user root starts out with the whole heap. */
  lemma HeapUnderUser(s: Space, s': Space, free: set<nat>, kernel: nat, user: nat, n: nat)
    requires HeapMapped(s, free, kernel, n) && RootStep(s, s', kernel, user) && user in free
    ensures HeapMapped(s', free - {user}, user, n)
  {
    hide Walk, Typed, HeapMapped;
    forall i | 0 <= i < HEAP_PAGES
      ensures KeptAt(s.ram, s'.ram, kernel, user, i)
    {
      HeapVpnOf(i);
    }
    MappedKept(s, s', free, free - {user}, kernel, user, n);
  }

  /** A heap that was there when a user root was created and that is grown under the user root is grown for
      the kernel root as well: both translate every heap page exactly alike. */
  lemma HeapGrowsForKernel(s: Space, kernel: nat, user: nat, trace: seq<Space>, maps: seq<Map>, free0: set<nat>, free: set<nat>, n: nat, m: nat, i: nat)
    requires MapRun(trace, user, maps) && IsRoot(s.tags, kernel) && RootStep(s, trace[0], kernel, user)
    requires HeapMapped(s, free0, kernel, n) && n > 0
    requires HeapMapped(trace[|maps|], free, user, m) && i < m
    ensures Walk(trace[|maps|].ram, kernel, HeapVpn(i), 3) == Walk(trace[|maps|].ram, user, HeapVpn(i), 3)
  {
    hide Walk, MapStep, RootStep;
    HeapVpnOf(0);
    HeapVpnOf(i);
    assert PageOwned(s, free0, kernel, 0);
    WritableTop(s.ram, kernel, HeapVpn(0));
    SharedForever(s, kernel, user, trace, maps, HeapVpn(i));
    assert PageOwned(trace[|maps|], free, user, i);
    SameWalk(trace[|maps|].ram, kernel, user, HeapVpn(i));
  }

  /** What is writable has a writable PML4 slot. */
  lemma WritableTop(m: Ram, root: nat, v: Vpn)
    requires Walk(m, root, v, 3).Mapped? && Walk(m, root, v, 3).write
    ensures Present(Entry(m, root, Index(v, 3))) && Writable(Entry(m, root, Index(v, 3)))
  {
  }

  lemma SameWalk(m: Ram, kernel: nat, user: nat, v: Vpn)
    requires Shares(m, kernel, user, v) && Writable(Entry(m, kernel, Index(v, 3)))
    requires var l := Walk(m, user, v, 3); l.Mapped? && l == PageLeaf(l.entry) && l.write && !l.user
    ensures Walk(m, kernel, v, 3) == Walk(m, user, v, 3)
  {
    hide Entry, Bit;
    LeafBoundsAccess(m, kernel, v, 3);
    SharedPages(m, kernel, user, v);
  }
}
