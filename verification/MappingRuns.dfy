/** Whole runs of map and unmap steps: page tables as a last-write-wins map of pages, isolation of
    address spaces that share their upper half, effective permissions, and ranges. */
module MappingRuns {
  import opened Bytes
  import opened Paging
  import opened Mapping

  // ----- leaves and permissions

  /** No walk grants more than its leaf does. */
  lemma {:induction false} LeafBoundsAccess(m: Ram, t: nat, v: nat, level: nat)
    ensures var l := Walk(m, t, v, level);
      l.Mapped? ==> Present(l.entry) && (l.user ==> User(l.entry)) && (l.write ==> Writable(l.entry))
    decreases level
  {
    var e := Entry(m, t, Index(v, level));
    if Present(e) && level > 0 && !Large(e, level) {
      LeafBoundsAccess(m, Frame(e), v, level - 1);
    }
  }

  /** A page that has all the access its entry grants cannot be widened. */
  lemma FullLeafStays(m: Ram, root: nat, v: Vpn, e: nat)
    requires Widens(PageLeaf(e), Walk(m, root, v, 3))
    ensures Walk(m, root, v, 3) == PageLeaf(e)
  {
    LeafBoundsAccess(m, root, v, 3);
  }

  /** A mapped 4 KiB page has all its tables. */
  lemma {:induction false} MappedHasTables(m: Ram, t: nat, v: nat, level: nat)
    requires Walk(m, t, v, level).Mapped? && Walk(m, t, v, level).level == 0
    ensures TablesExist(m, t, v, level)
    decreases level
  {
    var e := Entry(m, t, Index(v, level));
    if level > 0 {
      MappedHasTables(m, Frame(e), v, level - 1);
    }
  }

  /** The effective permission of a page is the one its leaf entry states. */
  predicate EffectiveIsLeaf(l: Leaf) {
    l.Mapped? ==> l.user == User(l.entry) && l.write == Writable(l.entry)
  }

  /** Every table entry followed on the way to the page carries the user and write bits. */
  predicate OpenPath(m: Ram, t: nat, v: nat, level: nat)
    decreases level
  {
    var e := Entry(m, t, Index(v, level));
    level > 0 && Present(e) && !Large(e, level) ==> User(e) && Writable(e) && OpenPath(m, Frame(e), v, level - 1)
  }

  /** Intel SDM Volume 3A, section 4.6: with open table entries the AND over all levels is the leaf's own flags. */
  lemma {:induction false} OpenPathIsEffective(m: Ram, t: nat, v: nat, level: nat)
    requires OpenPath(m, t, v, level)
    ensures EffectiveIsLeaf(Walk(m, t, v, level))
    decreases level
  {
    var e := Entry(m, t, Index(v, level));
    if Present(e) && level > 0 && !Large(e, level) {
      OpenPathIsEffective(m, Frame(e), v, level - 1);
    }
  }

  // ----- runs of map steps

  datatype Map = Map(v: Vpn, e: nat)

  ghost predicate MapRun(trace: seq<Space>, root: nat, maps: seq<Map>) {
    && |trace| == |maps| + 1
    && IsRoot(trace[0].tags, root) && root != SHARED
    && forall i :: 0 <= i < |maps| ==> MapStep(trace[i], trace[i + 1], root, maps[i].v, maps[i].e)
  }

  datatype Write = Kept | Written(e: nat)

  function LastWrite(maps: seq<Map>, w: Vpn): Write {
    if maps == [] then Kept
    else if maps[|maps| - 1].v == w then Written(maps[|maps| - 1].e)
    else LastWrite(maps[..|maps| - 1], w)
  }

  lemma {:induction false} RootsStay(trace: seq<Space>, root: nat, maps: seq<Map>, r: nat)
    requires MapRun(trace, root, maps) && IsRoot(trace[0].tags, r)
    ensures forall i :: 0 <= i < |trace| ==> IsRoot(trace[i].tags, r)
  {
    if maps != [] {
      RootsStay(trace[..|maps|], root, maps[..|maps| - 1], r);
      assert MapStep(trace[|maps| - 1], trace[|maps|], root, maps[|maps| - 1].v, maps[|maps| - 1].e);
      assert trace[..|maps|][|maps| - 1] == trace[|maps| - 1];
      forall i | 0 <= i < |trace|
        ensures IsRoot(trace[i].tags, r)
      {
        if i < |maps| { assert trace[i] == trace[..|maps|][i]; }
      }
    }
  }

  /** Over any run of maps under a root, its page tables are a map from pages to entries in which the
      last write wins; pages never written keep their leaf and lose no permission. */
  lemma {:induction false} RunTranslates(trace: seq<Space>, root: nat, maps: seq<Map>, w: Vpn)
    requires MapRun(trace, root, maps)
    ensures match LastWrite(maps, w)
      case Kept => Widens(Walk(trace[0].ram, root, w, 3), Walk(trace[|maps|].ram, root, w, 3))
      case Written(e) => Walk(trace[|maps|].ram, root, w, 3) == PageLeaf(e)
  {
    if maps != [] {
      var n := |maps| - 1;
      RootsStay(trace, root, maps, root);
      assert trace[..|maps|][n] == trace[n];
      RunTranslates(trace[..|maps|], root, maps[..n], w);
      assert MapStep(trace[n], trace[n + 1], root, maps[n].v, maps[n].e);
      if maps[n].v != w {
        assert Widens(Walk(trace[n].ram, root, w, 3), Walk(trace[n + 1].ram, root, w, 3));
        if LastWrite(maps[..n], w).Written? {
          FullLeafStays(trace[n + 1].ram, root, w, LastWrite(maps[..n], w).e);
        }
      }
    }
  }

  /** Permissions: a root whose pages have exactly the access of their leaves (an empty one, say)
      keeps that over every run, and then no map changes another page at all. */
  lemma RunPermissions(trace: seq<Space>, root: nat, maps: seq<Map>, w: Vpn)
    requires MapRun(trace, root, maps)
    requires EffectiveIsLeaf(Walk(trace[0].ram, root, w, 3))
    ensures EffectiveIsLeaf(Walk(trace[|maps|].ram, root, w, 3))
    ensures LastWrite(maps, w).Kept? ==> Walk(trace[|maps|].ram, root, w, 3) == Walk(trace[0].ram, root, w, 3)
  {
    RunTranslates(trace, root, maps, w);
    LeafBoundsAccess(trace[|maps|].ram, root, w, 3);
  }

  /** A tidy tree stays tidy over any run of maps, and one without high bits stays so if no map brings any. */
  lemma {:induction false} RunTidy(trace: seq<Space>, root: nat, maps: seq<Map>)
    requires MapRun(trace, root, maps)
    ensures Tidy(trace[0]) ==> Tidy(trace[|maps|])
    ensures Low(trace[0]) && (forall i :: 0 <= i < |maps| ==> maps[i].e < TWO52) ==> Low(trace[|maps|])
  {
    hide Tidy, Low, Typed, Walk;
    if maps != [] {
      var n := |maps| - 1;
      assert trace[..n + 1][n] == trace[n] && trace[..n + 1][0] == trace[0];
      RunTidy(trace[..n + 1], root, maps[..n]);
      assert MapStep(trace[n], trace[n + 1], root, maps[n].v, maps[n].e);
    }
  }

  /** Lower-half maps under one root are invisible to every other root and to the upper half. */
  lemma {:induction false} RunIsolated(trace: seq<Space>, root: nat, maps: seq<Map>, r: nat, w: Vpn)
    requires MapRun(trace, root, maps) && IsRoot(trace[0].tags, r)
    requires forall i :: 0 <= i < |maps| ==> !Upper(maps[i].v)
    requires r != root || Upper(w)
    ensures Walk(trace[|maps|].ram, r, w, 3) == Walk(trace[0].ram, r, w, 3)
  {
    if maps != [] {
      var n := |maps| - 1;
      RootsStay(trace, root, maps, r);
      assert trace[..|maps|][n] == trace[n];
      RunIsolated(trace[..|maps|], root, maps[..n], r, w);
      assert MapStep(trace[n], trace[n + 1], root, maps[n].v, maps[n].e);
    }
  }

  /** A user address space: after it is created from the kernel's and any run of lower-half maps is
      made under it, the kernel root translates every page as before, and the user root translates
      the upper half as the kernel root does. */
  lemma UserSpaceIsolated(s: Space, kernel: nat, user: nat, trace: seq<Space>, maps: seq<Map>, w: Vpn)
    requires MapRun(trace, user, maps) && IsRoot(s.tags, kernel) && RootStep(s, trace[0], kernel, user)
    requires forall i :: 0 <= i < |maps| ==> !Upper(maps[i].v)
    ensures Walk(trace[|maps|].ram, kernel, w, 3) == Walk(s.ram, kernel, w, 3)
    ensures Upper(w) ==> Walk(trace[|maps|].ram, user, w, 3) == Walk(trace[|maps|].ram, kernel, w, 3)
  {
    RunIsolated(trace, user, maps, kernel, w);
    if Upper(w) {
      RunIsolated(trace, user, maps, user, w);
    }
  }

  // ----- the upper half

  /** A map of an upper-half page as other roots see it: those whose PML4 slot leads to the same table see
      the new leaf, cut down to the access their own slot grants; those without the slot see nothing. */
  lemma UpperSeen(s: Space, s': Space, root: nat, v: Vpn, e: nat, r: nat)
    requires MapStep(s, s', root, v, e) && IsRoot(s.tags, r) && r != root
    ensures var top := Entry(s.ram, r, Index(v, 3));
      && (Present(top) && Frame(top) == Frame(Entry(s'.ram, root, Index(v, 3))) ==> Walk(s'.ram, r, v, 3) == PageLeaf(e).Under(top))
      && (!Present(top) ==> Walk(s'.ram, r, v, 3) == Unmapped)
  {
    hide Bit, Entry, Typed;
    assert Entry(s'.ram, r, Index(v, 3)) == Entry(s.ram, r, Index(v, 3));
  }

  /** The PML4 slots of two roots for a page lead to the same table. */
  predicate Shares(m: Ram, r: nat, r': nat, w: nat) {
    var e, e' := Entry(m, r, Index(w, 3)), Entry(m, r', Index(w, 3));
    Present(e) && Present(e') && Frame(e') == Frame(e)
  }

  /** The same entry at the same level. */
  predicate SameLeaf(l: Leaf, l': Leaf) {
    if l.Unmapped? then l'.Unmapped? else l'.Mapped? && l'.entry == l.entry && l'.level == l.level
  }

  /** Roots that share a slot translate all its pages alike. */
  lemma SharedPages(m: Ram, r: nat, r': nat, w: nat)
    requires Shares(m, r, r', w)
    ensures SameLeaf(Walk(m, r, w, 3), Walk(m, r', w, 3))
  {
  }

  /** A slot that was there when a user root was created stays shared over every run of maps under the user
      root, upper half included: whatever is mapped behind it is seen by both roots. A slot that was missing
      stays missing in the kernel root. */
  lemma {:induction false} SharedForever(s: Space, kernel: nat, user: nat, trace: seq<Space>, maps: seq<Map>, w: Vpn)
    requires MapRun(trace, user, maps) && IsRoot(s.tags, kernel) && RootStep(s, trace[0], kernel, user) && Upper(w)
    ensures IsRoot(trace[|maps|].tags, kernel) && IsRoot(trace[|maps|].tags, user)
    ensures var m := trace[|maps|].ram;
      && Entry(m, kernel, Index(w, 3)) == Entry(s.ram, kernel, Index(w, 3))
      && if Present(Entry(s.ram, kernel, Index(w, 3)))
         then Shares(m, kernel, user, w) && SameLeaf(Walk(m, kernel, w, 3), Walk(m, user, w, 3))
         else Walk(m, kernel, w, 3) == Unmapped
  {
    hide Bit, Entry, Typed;
    var n := |maps|;
    if n == 0 {
      SlotCopied(s, trace[0], kernel, user, w);
    } else {
      assert trace[..n][0] == trace[0] && trace[..n][n - 1] == trace[n - 1];
      SharedForever(s, kernel, user, trace[..n], maps[..n - 1], w);
      assert MapStep(trace[n - 1], trace[n], user, maps[n - 1].v, maps[n - 1].e);
      TopsAfter(trace[n - 1], trace[n], kernel, user, w);
    }
    if Present(Entry(s.ram, kernel, Index(w, 3))) {
      SharedPages(trace[n].ram, kernel, user, w);
    }
  }

  lemma SlotCopied(s: Space, s': Space, kernel: nat, user: nat, w: Vpn)
    requires RootStep(s, s', kernel, user) && IsRoot(s.tags, kernel) && Upper(w)
    ensures IsRoot(s'.tags, kernel) && IsRoot(s'.tags, user) && kernel != user
    ensures Entry(s'.ram, kernel, Index(w, 3)) == Entry(s.ram, kernel, Index(w, 3)) == Entry(s'.ram, user, Index(w, 3))
  {
    hide Walk, Entry, Typed;
  }

  lemma TopsAfter(s: Space, s': Space, kernel: nat, user: nat, w: Vpn)
    requires TopsKept(s, s', user) && IsRoot(s.tags, kernel) && IsRoot(s.tags, user) && kernel != user
    ensures Entry(s'.ram, kernel, Index(w, 3)) == Entry(s.ram, kernel, Index(w, 3))
    ensures Shares(s.ram, kernel, user, w) ==> Shares(s'.ram, kernel, user, w)
  {
    hide Bit, Entry, Frame;
  }

  // ----- ranges

  /** The page `i` pages after `v`, wrapping at the end of the address space. */
  function PageAfter(v: Vpn, i: nat): Vpn
    requires i < PAGES
  {
    if v + i < PAGES then v + i else v + i - PAGES
  }

  /** How many pages `w` lies after `v`. */
  function Distance(v: Vpn, w: Vpn): nat {
    if w >= v then w - v else w + PAGES - v
  }

  /** The entry of page `w` in a range that starts at `v`. */
  function RangeEntry(v: Vpn, w: Vpn, phys: nat, flags: nat): nat {
    PageEntry(phys + Distance(v, w) * 4096, flags)
  }

  ghost predicate PagesMapped(s: Space, root: nat, v: Vpn, n: nat, phys: nat, flags: nat) {
    forall w: Vpn :: Distance(v, w) < n ==> Walk(s.ram, root, w, 3) == PageLeaf(RangeEntry(v, w, phys, flags))
  }

  ghost predicate OutsideKept(s: Space, s': Space, root: nat, v: Vpn, n: nat) {
    forall r, w: Vpn :: IsRoot(s.tags, r) && !(Distance(v, w) < n && (r == root || Upper(w))) ==>
      Widens(Walk(s.ram, r, w, 3), Walk(s'.ram, r, w, 3))
  }

  ghost predicate RangeLower(v: Vpn, n: nat) {
    forall w: Vpn :: Distance(v, w) < n ==> !Upper(w)
  }

  /** The first `n` pages from `v` on translate to consecutive frames from `phys` on; all others keep
      their leaves, and a range that stays in the lower half is invisible to every other root. */
  ghost predicate RangeMapped(s: Space, s': Space, root: nat, v: Vpn, n: nat, phys: nat, flags: nat) {
    && Typed(s'.ram, s'.tags) && Grows(s, s')
    && PagesMapped(s', root, v, n, phys, flags)
    && OutsideKept(s, s', root, v, n)
    && (RangeLower(v, n) ==> OthersKept(s, s', root))
  }

  lemma RangeMapsNothing(s: Space, root: nat, v: Vpn, phys: nat, flags: nat)
    requires Typed(s.ram, s.tags)
    ensures RangeMapped(s, s, root, v, 0, phys, flags)
  {
  }

  /** The next map of a range extends it by a page. */
  lemma RangeGrows(s: Space, s1: Space, s2: Space, root: nat, v: Vpn, n: nat, phys: nat, flags: nat)
    requires n < PAGES && FlagsOk(flags) && phys + n * 4096 < TWO52 && IsRoot(s.tags, root)
    requires RangeMapped(s, s1, root, v, n, phys, flags)
    requires MapStep(s1, s2, root, PageAfter(v, n), PageEntry(phys + n * 4096, flags))
    ensures RangeMapped(s, s2, root, v, n + 1, phys, flags)
  {
    hide Walk, PageEntry, Typed, PagesMapped, OutsideKept, OthersKept;
    RangeFits(s, s1, s2, root, v, n);
    RangeHead(s, s1, s2, root, v, n, phys, flags);
    RangeTail(s, s1, s2, root, v, n, phys, flags);
    if RangeLower(v, n + 1) {
      RangePrivate(s, s1, s2, root, v, n, phys, flags);
    }
  }

  lemma RangeFits(s: Space, s1: Space, s2: Space, root: nat, v: Vpn, n: nat)
    requires n < PAGES && Grows(s, s1) && Grows(s1, s2)
    ensures Grows(s, s2) && Distance(v, PageAfter(v, n)) == n
  {
  }

  lemma RangeHead(s: Space, s1: Space, s2: Space, root: nat, v: Vpn, n: nat, phys: nat, flags: nat)
    requires n < PAGES && IsRoot(s1.tags, root)
    requires RangeMapped(s, s1, root, v, n, phys, flags)
    requires MapStep(s1, s2, root, PageAfter(v, n), PageEntry(phys + n * 4096, flags))
    ensures PagesMapped(s2, root, v, n + 1, phys, flags)
  {
    hide PageEntry, Typed, Walk, Grows, OthersKept, PageLeaf, Widens;
    forall w: Vpn | Distance(v, w) < n + 1
      ensures Walk(s2.ram, root, w, 3) == PageLeaf(RangeEntry(v, w, phys, flags))
    {
      if Distance(v, w) == n {
        assert w == PageAfter(v, n);
        assert RangeEntry(v, w, phys, flags) == PageEntry(phys + n * 4096, flags);
      } else {
        FullLeafKept(s1, s2, root, w, PageAfter(v, n), PageEntry(phys + n * 4096, flags), RangeEntry(v, w, phys, flags));
      }
    }
  }

  /** A page with all the access its entry grants survives the map of another page. */
  lemma FullLeafKept(s1: Space, s2: Space, root: nat, w: Vpn, v: Vpn, e: nat, full: nat)
    requires IsRoot(s1.tags, root) && w != v && MapStep(s1, s2, root, v, e)
    requires Walk(s1.ram, root, w, 3) == PageLeaf(full)
    ensures Walk(s2.ram, root, w, 3) == PageLeaf(full)
  {
    assert Widens(Walk(s1.ram, root, w, 3), Walk(s2.ram, root, w, 3));
    FullLeafStays(s2.ram, root, w, full);
  }

  lemma RangeTail(s: Space, s1: Space, s2: Space, root: nat, v: Vpn, n: nat, phys: nat, flags: nat)
    requires n < PAGES && IsRoot(s.tags, root)
    requires RangeMapped(s, s1, root, v, n, phys, flags)
    requires MapStep(s1, s2, root, PageAfter(v, n), PageEntry(phys + n * 4096, flags))
    ensures OutsideKept(s, s2, root, v, n + 1)
  {
    hide PageEntry, Typed, Walk, OthersKept, PageLeaf;
    forall r, w: Vpn | IsRoot(s.tags, r) && !(Distance(v, w) < n + 1 && (r == root || Upper(w)))
      ensures Widens(Walk(s.ram, r, w, 3), Walk(s2.ram, r, w, 3))
    {
      assert IsRoot(s1.tags, r);
      assert Widens(Walk(s.ram, r, w, 3), Walk(s1.ram, r, w, 3));
      assert Distance(v, PageAfter(v, n)) == n;
      assert Widens(Walk(s1.ram, r, w, 3), Walk(s2.ram, r, w, 3));
    }
  }

  lemma RangePrivate(s: Space, s1: Space, s2: Space, root: nat, v: Vpn, n: nat, phys: nat, flags: nat)
    requires n < PAGES && RangeMapped(s, s1, root, v, n, phys, flags)
    requires MapStep(s1, s2, root, PageAfter(v, n), PageEntry(phys + n * 4096, flags))
    requires RangeLower(v, n + 1)
    ensures OthersKept(s, s2, root)
  {
    hide PageEntry, Typed, Walk;
    assert Distance(v, PageAfter(v, n)) == n;
    assert OthersKept(s, s1, root) && OthersKept(s1, s2, root);
    forall r, w: Vpn | IsRoot(s.tags, r) && (r != root || Upper(w))
      ensures Walk(s2.ram, r, w, 3) == Walk(s.ram, r, w, 3)
    {
      assert IsRoot(s1.tags, r);
    }
  }

  /** The first `n` pages from `v` on are unmapped and nothing else has changed. */
  ghost predicate RangeUnmapped(s: Space, s': Space, root: nat, v: Vpn, n: nat) {
    && Typed(s'.ram, s'.tags) && Grows(s, s') && s'.tags == s.tags
    && (forall w: Vpn :: Distance(v, w) < n ==> Walk(s'.ram, root, w, 3) == Unmapped)
    && (forall r, w: Vpn :: IsRoot(s.tags, r) && TablesExist(s.ram, r, w, 3) ==> TablesExist(s'.ram, r, w, 3))
    && (forall r, w: Vpn :: IsRoot(s.tags, r) && !(Distance(v, w) < n && (r == root || Upper(w))) ==> Walk(s'.ram, r, w, 3) == Walk(s.ram, r, w, 3))
  }

  lemma RangeUnmapsNothing(s: Space, root: nat, v: Vpn)
    requires Typed(s.ram, s.tags)
    ensures RangeUnmapped(s, s, root, v, 0)
  {
  }

  lemma UnmappedGrows(s: Space, s1: Space, s2: Space, root: nat, v: Vpn, n: nat)
    requires n < PAGES && IsRoot(s.tags, root) && RangeUnmapped(s, s1, root, v, n)
    requires UnmapStep(s1, s2, root, PageAfter(v, n))
    ensures RangeUnmapped(s, s2, root, v, n + 1)
  {
    hide Walk, Typed, TablesExist;
    assert Distance(v, PageAfter(v, n)) == n;
    forall w: Vpn | Distance(v, w) < n + 1
      ensures Walk(s2.ram, root, w, 3) == Unmapped
    {
      if Distance(v, w) == n { assert w == PageAfter(v, n); }
    }
    forall r, w: Vpn | IsRoot(s.tags, r) && !(Distance(v, w) < n + 1 && (r == root || Upper(w)))
      ensures Walk(s2.ram, r, w, 3) == Walk(s.ram, r, w, 3)
    {
      assert Walk(s1.ram, r, w, 3) == Walk(s.ram, r, w, 3);
    }
  }

  /** After a range has been mapped all its tables exist, so that it can be unmapped. */
  lemma RangeHasTables(s: Space, s': Space, root: nat, v: Vpn, n: nat, phys: nat, flags: nat, w: Vpn)
    requires RangeMapped(s, s', root, v, n, phys, flags) && Distance(v, w) < n && phys + n * 4096 < TWO52 && FlagsOk(flags)
    ensures TablesExist(s'.ram, root, w, 3)
  {
    hide Walk, PageEntry, Typed, TablesExist;
    PageEntryBits(phys + Distance(v, w) * 4096, flags);
    MappedHasTables(s'.ram, root, w, 3);
  }

  /** Every page of a mapped range, bit by bit. */
  lemma RangeBits(s: Space, s': Space, root: nat, v: Vpn, n: nat, phys: nat, flags: nat)
    requires RangeMapped(s, s', root, v, n, phys, flags) && phys + n * 4096 < TWO52 && FlagsOk(flags)
    ensures forall w: Vpn :: Distance(v, w) < n ==> MappedTo(Walk(s'.ram, root, w, 3), phys + Distance(v, w) * 4096, flags)
  {
    hide Walk, PageEntry, Typed, MappedTo, PageLeaf, Distance;
    forall w: Vpn | Distance(v, w) < n
      ensures MappedTo(Walk(s'.ram, root, w, 3), phys + Distance(v, w) * 4096, flags)
    {
      LeafMappedTo(phys + Distance(v, w) * 4096, flags);
    }
  }

  /** A page translates as before: to the same leaf with no less access, and where the access was already
      that of the leaf, to exactly the same. */
  ghost predicate Restored(s: Space, s': Space, root: nat, w: Vpn) {
    && Widens(Walk(s.ram, root, w, 3), Walk(s'.ram, root, w, 3))
    && (EffectiveIsLeaf(Walk(s.ram, root, w, 3)) ==> Walk(s'.ram, root, w, 3) == Walk(s.ram, root, w, 3))
  }

  /** Mapping a range of unmapped pages and unmapping it again restores what the root translates. */
  lemma MapThenUnmap(s: Space, s1: Space, s2: Space, root: nat, v: Vpn, n: nat, phys: nat, flags: nat, w: Vpn)
    requires IsRoot(s.tags, root)
    requires forall p: Vpn :: Distance(v, p) < n ==> Walk(s.ram, root, p, 3) == Unmapped
    requires RangeMapped(s, s1, root, v, n, phys, flags) && RangeUnmapped(s1, s2, root, v, n)
    ensures Restored(s, s2, root, w)
  {
    assert IsRoot(s1.tags, root);
    LeafBoundsAccess(s2.ram, root, w, 3);
    if Distance(v, w) >= n {
      assert Widens(Walk(s.ram, root, w, 3), Walk(s1.ram, root, w, 3));
    }
  }

  /** The address `i` pages further names the page `i` after. */
  lemma VpnAfter(virt: nat, i: nat)
    requires i < PAGES
    ensures VpnOf(virt + i * 4096) == PageAfter(VpnOf(virt), i)
    ensures Distance(VpnOf(virt), VpnOf(virt + i * 4096)) == i
  {
    assert (virt + i * 4096) / 4096 == virt / 4096 + i;
  }

  /** Mapping the front of a range puts no large page in the way of its next page. */
  lemma RangeClear(s: Space, s': Space, root: nat, v: Vpn, n: nat, phys: nat, flags: nat)
    requires n < PAGES && RangeMapped(s, s', root, v, n, phys, flags) && IsRoot(s.tags, root)
    requires PathClear(s.ram, root, PageAfter(v, n))
    ensures PathClear(s'.ram, root, PageAfter(v, n))
  {
    hide Walk, PageEntry, Typed;
    assert Distance(v, PageAfter(v, n)) == n;
  }

  lemma RangeTables(s: Space, s': Space, root: nat, v: Vpn, n: nat)
    requires n < PAGES && RangeUnmapped(s, s', root, v, n) && IsRoot(s.tags, root)
    ensures TablesExist(s.ram, root, PageAfter(v, n), 3) ==> TablesExist(s'.ram, root, PageAfter(v, n), 3)
  {
  }
}
