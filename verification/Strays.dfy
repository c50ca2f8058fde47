/** What the translation query and the unmap do where they follow entries without looking at their present bits:
    exactly when the query is right, and exactly which translations an unmap loses. */
module Strays {
  import opened Bytes
  import opened Paging
  import opened Mapping
  import opened MappingRuns

  // ----- the translation query

  /** What `vmm_virt_to_phys` answers. */
  function Answer(m: Ram, root: nat, v: nat): nat { PageBase(RawLeaf(m, root, v, 3)) }

  /** The physical address in an entry: bits 12 to 51. */
  function PhysAddr(e: nat): nat { Frame(e) * 4096 }

  /** The address of a mapped page, and 0 for an unmapped one. */
  function RightAnswer(l: Leaf): nat { if l.Mapped? then PhysAddr(l.entry) else 0 }

  lemma AnswerOf(raw: nat)
    ensures PageBase(raw) == PhysAddr(raw) <==> raw < TWO52
    ensures PageBase(raw) == 0 <==> Masked(raw) == 0
  {
  }

  /** Without a large page or high bits in the way: right exactly if the page is mapped by an entry without bits
      from 52 up, or the entry found by following every entry has no bits from 12 up. */
  lemma QueryRightIff(m: Ram, root: nat, v: Vpn)
    requires PathClear(m, root, v) && PlainPath(m, root, v, 3)
    ensures var raw := RawLeaf(m, root, v, 3);
      Answer(m, root, v) == RightAnswer(Walk(m, root, v, 3))
      <==> (TablesExist(m, root, v, 3) && Present(raw) && raw < TWO52) || Masked(raw) == 0
  {
    hide Walk, RawLeaf, TablesExist, Bit, PlainPath, Frame, Masked, PhysAddr, PageBase;
    var raw := RawLeaf(m, root, v, 3);
    AnswerOf(raw);
    ZeroFrameBits(raw);
    if TablesExist(m, root, v, 3) {
      RawLeafDecides(m, root, v, 3);
    } else if Walk(m, root, v, 3).Mapped? {
      MappedHasTables(m, root, v, 3);
    }
  }

  lemma ZeroFrameBits(raw: nat)
    ensures Masked(raw) == 0 ==> raw < TWO52 && PhysAddr(raw) == 0 && PageBase(raw) == 0
  {
  }

  /** Where the tables exist: exactly if the last entry is present without bits from 52 up, or has none from 12 up. */
  lemma QueryAgrees(m: Ram, root: nat, v: Vpn)
    requires TablesExist(m, root, v, 3) && PlainPath(m, root, v, 3)
    ensures var raw := RawLeaf(m, root, v, 3);
      && (Walk(m, root, v, 3).Mapped? ==> (Answer(m, root, v) == PhysAddr(Walk(m, root, v, 3).entry) <==> raw < TWO52))
      && (Answer(m, root, v) == RightAnswer(Walk(m, root, v, 3)) <==> (Present(raw) && raw < TWO52) || Masked(raw) == 0)
  {
    hide Walk, RawLeaf, TablesExist, Bit, PlainPath, Frame, Masked, PhysAddr, PageBase;
    RawLeafDecides(m, root, v, 3);
    AnswerOf(RawLeaf(m, root, v, 3));
    ZeroFrameBits(RawLeaf(m, root, v, 3));
  }

  /** In a tidy tree both fall through a missing table into frame 0. */
  lemma {:induction false} FallsThrough(s: Space, root: nat, v: Vpn, t: nat, level: nat)
    requires Typed(s.ram, s.tags) && Tidy(s) && level <= 3 && t in s.tags && s.tags[t] == TagOf(root, v, level)
    requires MissingAt(s.ram, t, v, level) > 0
    ensures Walk(s.ram, t, v, level) == Unmapped
    ensures var l := MissingAt(s.ram, t, v, level);
      && RawLeaf(s.ram, t, v, level) == RawLeaf(s.ram, 0, v, l - 1)
      && LeafTable(s.ram, t, v, level) == LeafTable(s.ram, 0, v, l - 1)
    decreases level
  {
    hide Bit, Entry, Frame, Masked, Huge;
    var i := Index(v, level);
    var e := Entry(s.ram, t, i);
    assert TidySlot(s.ram, t, i);
    MaskedIsFrame(e);
    MaskedZero();
    if Present(e) {
      assert SlotTyped(s.ram, s.tags, t, i);
      ChildTag(root, v, level);
      FallsThrough(s, root, v, Frame(e), level - 1);
    }
  }

  lemma MaskedZero()
    ensures Masked(0) == 0
  {
  }

  lemma {:induction false} NoneMissing(m: Ram, t: nat, v: nat, level: nat)
    requires MissingAt(m, t, v, level) == 0 && (Walk(m, t, v, level).Mapped? ==> Walk(m, t, v, level).level == 0) && level <= 3
    ensures TablesExist(m, t, v, level)
    decreases level
  {
    hide Bit, Entry, Frame;
    if level > 0 {
      NoneMissing(m, Frame(Entry(m, t, Index(v, level))), v, level - 1);
    }
  }

  lemma {:induction false} TablesNotMissing(m: Ram, t: nat, v: nat, level: nat)
    requires TablesExist(m, t, v, level)
    ensures MissingAt(m, t, v, level) == 0
    decreases level
  {
    if level > 0 {
      TablesNotMissing(m, Frame(Entry(m, t, Index(v, level))), v, level - 1);
    }
  }

  /** In a tidy tree: where all tables of the page exist, exactly if its entry has no bits from 52 up; where the
      first missing one is that of level `l`, exactly if the entry found from frame 0 down has none from 12 up. */
  lemma QueryExact(s: Space, root: nat, v: Vpn)
    requires Typed(s.ram, s.tags) && Tidy(s) && IsRoot(s.tags, root) && PathClear(s.ram, root, v)
    ensures var l := MissingAt(s.ram, root, v, 3);
      && (l == 0 <==> TablesExist(s.ram, root, v, 3))
      && (Answer(s.ram, root, v) == RightAnswer(Walk(s.ram, root, v, 3))
          <==> if l == 0 then RawLeaf(s.ram, root, v, 3) < TWO52 else Masked(RawLeaf(s.ram, 0, v, l - 1)) == 0)
  {
    hide Walk, RawLeaf, TablesExist, Entry, SlotTyped, MissingAt, Frame, Masked, PageBase, PhysAddr, Bit;
    RootTagOf(root, v);
    TypedPlain(s.ram, s.tags, root, v, root, 3);
    QueryRightIff(s.ram, root, v);
    if MissingAt(s.ram, root, v, 3) > 0 {
      if TablesExist(s.ram, root, v, 3) { TablesNotMissing(s.ram, root, v, 3); }
      FallsThrough(s, root, v, root, 3);
    } else {
      NoneMissing(s.ram, root, v, 3);
      LeafTableTyped(s, root, v, root, 3);
      assert TidySlot(s.ram, LeafTable(s.ram, root, v, 3), Index(v, 0));
      MaskedZero();
      ZeroFrameBits(RawLeaf(s.ram, root, v, 3));
    }
  }

  /** With frame 0 all zeros, a tidy tree without high bits answers every query right. */
  lemma QueryOverZeros(s: Space, root: nat, v: Vpn)
    requires Typed(s.ram, s.tags) && Tidy(s) && Low(s) && IsRoot(s.tags, root) && PathClear(s.ram, root, v) && Blank(s.ram, 0)
    ensures Answer(s.ram, root, v) == RightAnswer(Walk(s.ram, root, v, 3))
  {
    hide Walk, RawLeaf, TablesExist, SlotTyped, MissingAt, Entry, Masked, Frame, LeafTable;
    QueryExact(s, root, v);
    var l := MissingAt(s.ram, root, v, 3);
    if l > 0 {
      OverZeros(s.ram, v, l - 1);
      MaskedZero();
    } else {
      RootTagOf(root, v);
      LeafTableTyped(s, root, v, root, 3);
      assert LowSlot(s.ram, LeafTable(s.ram, root, v, 3), Index(v, 0));
    }
  }

  lemma {:induction false} OverZeros(m: Ram, v: nat, level: nat)
    requires Blank(m, 0)
    ensures RawLeaf(m, 0, v, level) == 0 && LeafTable(m, 0, v, level) == 0
    decreases level
  {
    assert Entry(m, 0, Index(v, level)) == 0;
    if level > 0 { OverZeros(m, v, level - 1); }
  }

  /** After a map the query returns the frame of the physical address exactly if no flag lies above the address
      bits, as `PTE_NX` does. */
  lemma MappedAnswer(s: Space, s': Space, root: nat, v: Vpn, phys: nat, flags: nat)
    requires phys < TWO52 && FlagsOk(flags) && MapStep(s, s', root, v, PageEntry(phys, flags))
    ensures PhysAddr(Walk(s'.ram, root, v, 3).entry) == PageBase(phys)
    ensures Answer(s'.ram, root, v) == PageBase(phys) <==> flags < TWO52
  {
    hide Walk, RawLeaf, TablesExist, Typed, PageEntry, Bit;
    PageEntryBits(phys, flags);
    AnswerOf(PageEntry(phys, flags));
  }

  // ----- unmapping through missing tables

  /** All frames the unmap of a page reads or writes are there. */
  predicate InMemory(m: Ram, table: nat, v: nat, level: nat)
    decreases level
  {
    table in m && (level > 0 ==> InMemory(m, Masked(Entry(m, table, Index(v, level))), v, level - 1))
  }

  lemma {:induction false} LeafInMemory(m: Ram, table: nat, v: nat, level: nat)
    requires InMemory(m, table, v, level)
    ensures LeafTable(m, table, v, level) in m
    decreases level
  {
    if level > 0 { LeafInMemory(m, Masked(Entry(m, table, Index(v, level))), v, level - 1); }
  }

  lemma {:induction false} TablesInMemory(s: Space, root: nat, v: Vpn, t: nat, level: nat)
    requires Typed(s.ram, s.tags) && level <= 3 && t in s.tags && s.tags[t] == TagOf(root, v, level)
    requires TablesExist(s.ram, t, v, level)
    ensures InMemory(s.ram, t, v, level)
    decreases level
  {
    hide Entry, Bit, Frame, Masked, Huge;
    if level > 0 {
      assert SlotTyped(s.ram, s.tags, t, Index(v, level));
      MaskedIsFrame(Entry(s.ram, t, Index(v, level)));
      ChildTag(root, v, level);
      TablesInMemory(s, root, v, Frame(Entry(s.ram, t, Index(v, level))), level - 1);
    }
  }

  /** Memory after `vmm_unmap_page`. */
  function Cleared(m: Ram, root: nat, v: nat): Ram
    requires LeafTable(m, root, v, 3) in m
  {
    SetEntry(m, LeafTable(m, root, v, 3), Index(v, 0), 0)
  }

  /** The walk for `v` from `table` down reads slot `i` of table `t`. */
  predicate UsesSlot(m: Ram, table: nat, v: nat, level: nat, t: nat, i: nat)
    decreases level
  {
    var e := Entry(m, table, Index(v, level));
    || (table == t && Index(v, level) == i)
    || (level > 0 && Present(e) && !Large(e, level) && UsesSlot(m, Frame(e), v, level - 1, t, i))
  }

  /** Zeroing a slot of any frame unmaps exactly the pages whose walks read it. */
  lemma {:induction false} ZeroedWalk(m: Ram, m': Ram, t: nat, i: nat, table: nat, v: nat, level: nat)
    requires i < 512 && Entry(m', t, i) == 0
    requires forall t', i' :: i' < 512 && !(t' == t && i' == i) ==> Entry(m', t', i') == Entry(m, t', i')
    ensures Walk(m', table, v, level) == if UsesSlot(m, table, v, level, t, i) then Unmapped else Walk(m, table, v, level)
    decreases level
  {
    hide Entry, Frame, Huge;
    var e := Entry(m, table, Index(v, level));
    if table == t && Index(v, level) == i {
      assert !Present(0);
    } else if level > 0 && Present(e) && !Large(e, level) {
      ZeroedWalk(m, m', t, i, Frame(e), v, level - 1);
    }
  }

  /** A zero has been written to slot `i` of frame `t`, whatever that is: it is the only frame that changes, and
      exactly the pages walked through the slot are lost. */
  ghost predicate StrayStep(s: Space, s': Space, t: nat, i: nat) {
    && Typed(s'.ram, s'.tags) && s'.tags == s.tags && s'.ram.Keys == s.ram.Keys && TidyKept(s, s', 0)
    && (forall f :: f in s.ram && f != t ==> s'.ram[f] == s.ram[f])
    && (forall r, w: Vpn :: IsRoot(s.tags, r) ==>
          Walk(s'.ram, r, w, 3) == if UsesSlot(s.ram, r, w, 3, t, i) then Unmapped else Walk(s.ram, r, w, 3))
  }

  lemma StrayHolds(s: Space, t: nat, i: nat)
    requires Typed(s.ram, s.tags) && t in s.ram && i < 512
    ensures StrayStep(s, Space(SetEntry(s.ram, t, i, 0), s.tags), t, i)
  {
    hide Walk, UsesSlot, Entry, Bit;
    var m' := SetEntry(s.ram, t, i, 0);
    ZeroIsAbsent();
    forall t': nat, i': nat | i' < 512
      ensures Entry(m', t', i') == if t' == t && i' == i then 0 else Entry(s.ram, t', i')
    {
      EntryOfSetEntry(s.ram, t, i, 0, t', i');
    }
    forall t', i' | t' in s.tags && i' < 512
      ensures SlotTyped(m', s.tags, t', i') && (Tidy(s) ==> TidySlot(m', t', i')) && (Low(s) ==> LowSlot(m', t', i'))
    {
      assert SlotTyped(s.ram, s.tags, t', i') && (Tidy(s) ==> TidySlot(s.ram, t', i')) && (Low(s) ==> LowSlot(s.ram, t', i'));
    }
    forall r, w: Vpn | IsRoot(s.tags, r)
      ensures Walk(m', r, w, 3) == if UsesSlot(s.ram, r, w, 3, t, i) then Unmapped else Walk(s.ram, r, w, 3)
    {
      ZeroedWalk(s.ram, m', t, i, r, w, 3);
    }
  }

  lemma ZeroIsAbsent()
    ensures !Present(0)
  {
  }

  /** Every translation is as it was. */
  ghost predicate Harmless(s: Space, s': Space) {
    forall r, w: Vpn :: IsRoot(s.tags, r) ==> Walk(s'.ram, r, w, 3) == Walk(s.ram, r, w, 3)
  }

  /** No mapped page is walked through the slot. */
  ghost predicate SlotIdle(s: Space, t: nat, i: nat) {
    forall r, w: Vpn :: IsRoot(s.tags, r) && UsesSlot(s.ram, r, w, 3, t, i) ==> Walk(s.ram, r, w, 3) == Unmapped
  }

  /** Such a write is harmless exactly if no mapped page of any root is walked through the slot. */
  lemma StrayHarmless(s: Space, s': Space, t: nat, i: nat)
    requires StrayStep(s, s', t, i)
    ensures Harmless(s, s') <==> SlotIdle(s, t, i)
  {
    hide Walk, UsesSlot, Typed;
    if Harmless(s, s') {
      forall r, w: Vpn | IsRoot(s.tags, r) && UsesSlot(s.ram, r, w, 3, t, i)
        ensures Walk(s.ram, r, w, 3) == Unmapped
      {
        assert Walk(s'.ram, r, w, 3) == Walk(s.ram, r, w, 3);
      }
    }
  }

  /** Walks read slots of tables only. */
  lemma {:induction false} UsesTables(s: Space, root: nat, v: nat, table: nat, level: nat, t: nat, i: nat)
    requires Typed(s.ram, s.tags) && level <= 3 && table in s.tags && s.tags[table] == TagOf(root, v, level)
    requires UsesSlot(s.ram, table, v, level, t, i)
    ensures t in s.tags
    decreases level
  {
    hide Entry, Bit, Frame, Huge;
    if table != t || Index(v, level) != i {
      assert SlotTyped(s.ram, s.tags, table, Index(v, level));
      ChildTag(root, v, level);
      UsesTables(s, root, v, Frame(Entry(s.ram, table, Index(v, level))), level - 1, t, i);
    }
  }

  lemma {:induction false} UsesEmpty(m: Ram, table: nat, v: nat, level: nat, t: nat, i: nat)
    requires UsesSlot(m, table, v, level, t, i) && !Present(Entry(m, t, i))
    ensures Walk(m, table, v, level) == Unmapped
    decreases level
  {
    hide Entry, Bit, Frame, Huge;
    if table != t || Index(v, level) != i {
      UsesEmpty(m, Frame(Entry(m, table, Index(v, level))), v, level - 1, t, i);
    }
  }

  /** A frame that is no table, and a slot that is empty, are idle. */
  lemma IdleSlots(s: Space, t: nat, i: nat)
    requires Typed(s.ram, s.tags) && (t !in s.tags || !Present(Entry(s.ram, t, i)))
    ensures SlotIdle(s, t, i)
  {
    hide Walk, UsesSlot, Entry, Bit;
    forall r, w: Vpn | IsRoot(s.tags, r) && UsesSlot(s.ram, r, w, 3, t, i)
      ensures Walk(s.ram, r, w, 3) == Unmapped
    {
      RootTagOf(r, w);
      UsesTables(s, r, w, r, 3, t, i);
      UsesEmpty(s.ram, r, w, 3, t, i);
    }
  }

  /** The slot that the unmap of a page writes is read by the walk for that page, if its tables exist. */
  lemma {:induction false} LeafSlotUsed(m: Ram, table: nat, w: nat, level: nat)
    requires TablesExist(m, table, w, level) && PlainPath(m, table, w, level)
    ensures UsesSlot(m, table, w, level, LeafTable(m, table, w, level), Index(w, 0))
    decreases level
  {
    hide Entry, Bit, Frame, Huge, Masked;
    if level > 0 {
      MaskedIsFrame(Entry(m, table, Index(w, level)));
      LeafSlotUsed(m, Frame(Entry(m, table, Index(w, level))), w, level - 1);
    }
  }

  /** An unmap in a tidy tree where the first missing table of the page is that of level `l`: it writes to the
      frame found from frame 0 down. No translation changes exactly if no mapped page is walked through that
      slot; that is so if the frame is no table, and never so if the slot is the entry of a mapped page `w`. */
  lemma UnmapStrays(s: Space, root: nat, v: Vpn, r: nat, w: Vpn)
    requires Typed(s.ram, s.tags) && Tidy(s) && IsRoot(s.tags, root) && MissingAt(s.ram, root, v, 3) > 0
    requires LeafTable(s.ram, root, v, 3) in s.ram && IsRoot(s.tags, r)
    ensures var t := LeafTable(s.ram, 0, v, MissingAt(s.ram, root, v, 3) - 1);
      var s' := Space(Cleared(s.ram, root, v), s.tags);
      && LeafTable(s.ram, root, v, 3) == t && StrayStep(s, s', t, Index(v, 0))
      && (Harmless(s, s') <==> SlotIdle(s, t, Index(v, 0)))
      && (t !in s.tags ==> Harmless(s, s'))
      && (TablesExist(s.ram, r, w, 3) && LeafTable(s.ram, r, w, 3) == t && Index(w, 0) == Index(v, 0) ==> Walk(s'.ram, r, w, 3) == Unmapped)
  {
    hide Walk, UsesSlot, Entry, Bit, LeafTable, TablesExist, MissingAt, SlotTyped;
    var t := LeafTable(s.ram, root, v, 3);
    RootTagOf(root, v);
    FallsThrough(s, root, v, root, 3);
    StrayHolds(s, t, Index(v, 0));
    StrayHarmless(s, Space(Cleared(s.ram, root, v), s.tags), t, Index(v, 0));
    if t !in s.tags { IdleSlots(s, t, Index(v, 0)); }
    if TablesExist(s.ram, r, w, 3) {
      RootTagOf(r, w);
      TypedPlain(s.ram, s.tags, r, w, r, 3);
      LeafSlotUsed(s.ram, r, w, 3);
    }
  }

  /** With frame 0 all zeros every unmap through a missing table is harmless. */
  lemma UnmapOverZeros(s: Space, root: nat, v: Vpn)
    requires Typed(s.ram, s.tags) && Tidy(s) && IsRoot(s.tags, root) && MissingAt(s.ram, root, v, 3) > 0
    requires Blank(s.ram, 0) && 0 in s.ram
    ensures LeafTable(s.ram, root, v, 3) == 0 && Harmless(s, Space(Cleared(s.ram, root, v), s.tags))
  {
    hide Walk, UsesSlot, Entry, Bit, LeafTable, MissingAt, SlotTyped;
    RootTagOf(root, v);
    FallsThrough(s, root, v, root, 3);
    OverZeros(s.ram, v, MissingAt(s.ram, root, v, 3) - 1);
    UnmapStrays(s, root, v, root, v);
  }

  /** Memory after `n` unmaps from page `v` on, or none where one of them leaves memory. */
  function ClearedRange(m: Ram, root: nat, v: Vpn, n: nat): Option<Ram>
    requires n <= PAGES
  {
    if n == 0 then Some(m)
    else
      var r := ClearedRange(m, root, v, n - 1);
      if r.None? || !InMemory(r.value, root, PageAfter(v, n - 1), 3) then None
      else
        LeafInMemory(r.value, root, PageAfter(v, n - 1), 3);
        Some(Cleared(r.value, root, PageAfter(v, n - 1)))
  }

  lemma {:induction false} RangeFaults(m: Ram, root: nat, v: Vpn, i: nat, n: nat)
    requires i <= n <= PAGES && ClearedRange(m, root, v, i).None?
    ensures ClearedRange(m, root, v, n).None?
    decreases n
  {
    if i < n { RangeFaults(m, root, v, i, n - 1); }
  }

  /** All tables of the first `n` pages from `v` on exist. */
  ghost predicate AllTables(m: Ram, root: nat, v: Vpn, n: nat) {
    forall w: Vpn :: Distance(v, w) < n ==> TablesExist(m, root, w, 3)
  }

  lemma NextTables(s: Space, s': Space, root: nat, v: Vpn, i: nat, n: nat)
    requires i < n <= PAGES && AllTables(s.ram, root, v, n) && RangeUnmapped(s, s', root, v, i) && IsRoot(s.tags, root)
    ensures TablesExist(s'.ram, root, PageAfter(v, i), 3)
  {
    hide TablesExist, Walk, Typed;
    assert Distance(v, PageAfter(v, i)) == i;
    RangeTables(s, s', root, v, i);
  }

  // ----- inputs

  /** Four tables on the way to page 0, with `last` as its entry, over a frame 0 whose first entry is `low`. */
  function FourTables(low: nat, last: nat): Ram {
    SetEntry(SetEntry(SetEntry(SetEntry(SetEntry(FiveFrames(), 0, 0, low), 1, 0, 0x2001), 2, 0, 0x3001), 3, 0, 0x4001), 4, 0, last)
  }

  function FiveFrames(): (m: Ram)
    ensures m.Keys == {0, 1, 2, 3, 4}
  {
    var zero := seq(4096, i => 0);
    map[0 := zero, 1 := zero, 2 := zero, 3 := zero, 4 := zero]
  }

  lemma FourEntries(low: nat, last: nat, t: nat, i: nat)
    requires low < TWO64 && last < TWO64 && t <= 4 && i < 512
    ensures FourTables(low, last).Keys == {0, 1, 2, 3, 4}
    ensures Entry(FourTables(low, last), t, i) ==
      if i > 0 then 0 else if t == 0 then low else if t == 4 then last else t * 4096 + 0x1001
  {
    hide Entry, SetEntry, FiveFrames;
    var m := FiveFrames();
    FrameEntry(t, i);
    SetKeys(m, 0, 0, low);
    EntryOfSetEntry(m, 0, 0, low, t, i);
    var m0 := SetEntry(m, 0, 0, low);
    SetKeys(m0, 1, 0, 0x2001);
    EntryOfSetEntry(m0, 1, 0, 0x2001, t, i);
    var m1 := SetEntry(m0, 1, 0, 0x2001);
    SetKeys(m1, 2, 0, 0x3001);
    EntryOfSetEntry(m1, 2, 0, 0x3001, t, i);
    var m2 := SetEntry(m1, 2, 0, 0x3001);
    SetKeys(m2, 3, 0, 0x4001);
    EntryOfSetEntry(m2, 3, 0, 0x4001, t, i);
    var m3 := SetEntry(m2, 3, 0, 0x4001);
    SetKeys(m3, 4, 0, last);
    EntryOfSetEntry(m3, 4, 0, last, t, i);
  }

  lemma SetKeys(m: Ram, t: nat, i: nat, e: nat)
    requires t in m && i < 512
    ensures SetEntry(m, t, i, e).Keys == m.Keys
  {
  }

  lemma FrameEntry(t: nat, i: nat)
    requires t <= 4 && i < 512
    ensures Entry(FiveFrames(), t, i) == 0
  {
    hide Entry;
    var zero: seq<byte> := seq(4096, i => 0);
    assert FiveFrames()[t] == zero;
    ZeroEntry(FiveFrames(), zero, t, i);
  }

  lemma ZeroEntry(m: Ram, zero: seq<byte>, t: nat, i: nat)
    requires t in m && m[t] == zero && |zero| == 4096 && i < 512 && forall b :: 0 <= b < 4096 ==> zero[b] == 0
    ensures Entry(m, t, i) == 0
  {
    hide FromLe;
    ZeroWord(zero[8 * i..8 * i + 8]);
  }

  lemma {:induction false} ZeroWord(b: seq<byte>)
    requires forall i :: 0 <= i < |b| ==> b[i] == 0
    ensures FromLe(b) == 0
  {
    if b != [] { ZeroWord(b[1..]); }
  }

  /** The bits of the address of a frame with the present bit. */
  lemma OneBits(f: nat)
    requires f < FRAMES
    ensures Present(f * 4096 + 1) && !Huge(f * 4096 + 1) && Frame(f * 4096 + 1) == f && Masked(f * 4096 + 1) == f
  {
    Shift7(f * 4096 + 1);
    assert (f * 4096 + 1) / 128 == f * 32;
  }

  /** Page 0 of root 1 there: all its tables exist, and its entry decides. */
  lemma PageZero(low: nat, last: nat)
    requires low < TWO64 && last < TWO64
    ensures var m := FourTables(low, last);
      && TablesExist(m, 1, 0, 3) && Walk(m, 1, 0, 3).Mapped? == Present(last) && (Present(last) ==> Walk(m, 1, 0, 3).entry == last)
      && RawLeaf(m, 1, 0, 3) == last && LeafTable(m, 1, 0, 3) == 4
  {
    hide FourTables, Entry, Bit, Huge, Frame, Masked;
    FourEntries(low, last, 1, 0);
    FourEntries(low, last, 2, 0);
    FourEntries(low, last, 3, 0);
    FourEntries(low, last, 4, 0);
    OneBits(2);
    OneBits(3);
    OneBits(4);
    var m := FourTables(low, last);
    assert RawLeaf(m, 4, 0, 0) == last && LeafTable(m, 4, 0, 0) == 4;
    assert Walk(m, 4, 0, 0).Mapped? == Present(last);
  }

  /** With these tags that is a well-formed tree, and a tidy one if the last entry is. */
  lemma FourTyped(low: nat, last: nat)
    requires low < TWO64 && last < TWO64
    ensures var s := Space(FourTables(low, last), map[1 := RootTag(1), 2 := Tag(1, 2, 0), 3 := Tag(1, 1, 0), 4 := Tag(1, 0, 0)]);
      Typed(s.ram, s.tags) && IsRoot(s.tags, 1) && (Present(last) || last == 0 ==> Tidy(s))
  {
    hide FourTables, Entry, Bit, Huge, Frame, Masked;
    var m := FourTables(low, last);
    var tags: Tags := map[1 := RootTag(1), 2 := Tag(1, 2, 0), 3 := Tag(1, 1, 0), 4 := Tag(1, 0, 0)];
    OneBits(2);
    OneBits(3);
    OneBits(4);
    ZeroIsAbsent();
    FourEntries(low, last, 1, 0);
    forall t, i | t in tags && i < 512
      ensures SlotTyped(m, tags, t, i) && (Present(last) || last == 0 ==> TidySlot(m, t, i))
    {
      FourEntries(low, last, t, i);
    }
  }

  /** An entry that is not present but has frame bits: the page is not mapped, but the query answers a frame. */
  lemma QueryStale()
    ensures var m := FourTables(0, 0x5000); TablesExist(m, 1, 0, 3) && Walk(m, 1, 0, 3) == Unmapped && Answer(m, 1, 0) == 0x5000
  {
    hide FourTables, Walk, RawLeaf, LeafTable, TablesExist;
    PageZero(0, 0x5000);
    AlignedBits(5);
  }

  /** A present entry with `PTE_NX`: the page is mapped to 0x5000, but bit 63 stays in the answer. */
  lemma QueryNx()
    ensures var m := FourTables(0, 0x8000_0000_0000_5001);
      && TablesExist(m, 1, 0, 3) && Walk(m, 1, 0, 3).Mapped? && PhysAddr(Walk(m, 1, 0, 3).entry) == 0x5000
      && Answer(m, 1, 0) == 0x8000_0000_0000_5000
  {
    hide FourTables, Walk, RawLeaf, LeafTable, TablesExist;
    assert Present(0x8000_0000_0000_5001) by { assert 0x8000_0000_0000_5001 % 2 == 1; }
    PageZero(0, 0x8000_0000_0000_5001);
  }

  /** The first page under PML4 slot 1. */
  const FAR: Vpn := 0x800_0000

  /** A missing table over a frame 0 that holds 0x5000 where the walk down from it ends: the query answers it. */
  lemma QueryStrays()
    ensures var m := FourTables(0x3001, 0x5001);
      MissingAt(m, 1, FAR, 3) == 3 && Walk(m, 1, FAR, 3) == Unmapped && LeafTable(m, 1, FAR, 3) == 4 && Answer(m, 1, FAR) == 0x5000
  {
    hide FourTables, Entry, Bit, Huge, Frame, Masked;
    var m := FourTables(0x3001, 0x5001);
    FourEntries(0x3001, 0x5001, 1, 1);
    FourEntries(0x3001, 0x5001, 0, 0);
    FourEntries(0x3001, 0x5001, 3, 0);
    FourEntries(0x3001, 0x5001, 4, 0);
    ZeroIsAbsent();
    MaskedZero();
    OneBits(3);
    OneBits(4);
    assert Index(FAR, 3) == 1 && Index(FAR, 2) == 0 && Index(FAR, 1) == 0 && Index(FAR, 0) == 0;
    assert RawLeaf(m, 4, FAR, 0) == 0x5001 && LeafTable(m, 4, FAR, 0) == 4;
    assert RawLeaf(m, 3, FAR, 1) == 0x5001 && LeafTable(m, 3, FAR, 1) == 4;
    assert RawLeaf(m, 0, FAR, 2) == 0x5001 && LeafTable(m, 0, FAR, 2) == 4;
  }

  /** Unmapping that page, which was not mapped, unmaps page 0, which was. */
  lemma UnmapLoses()
    ensures var m := FourTables(0x3001, 0x5001);
      && Walk(m, 1, FAR, 3) == Unmapped && Walk(m, 1, 0, 3).Mapped? && LeafTable(m, 1, FAR, 3) in m
      && Walk(Cleared(m, 1, FAR), 1, 0, 3) == Unmapped
  {
    hide FourTables, Entry, Bit, Frame, Huge, Walk, RawLeaf, LeafTable, TablesExist, UsesSlot, Masked, SetEntry;
    var m := FourTables(0x3001, 0x5001);
    QueryStrays();
    OneBits(5);
    PageZero(0x3001, 0x5001);
    FourEntries(0x3001, 0x5001, 4, 0);
    var m' := SetEntry(m, 4, 0, 0);
    forall t: nat, i: nat | i < 512
      ensures Entry(m', t, i) == if t == 4 && i == 0 then 0 else Entry(m, t, i)
    {
      EntryOfSetEntry(m, 4, 0, 0, t, i);
    }
    PlainZero(0x3001, 0x5001);
    LeafSlotUsed(m, 1, 0, 3);
    ZeroedWalk(m, m', 4, 0, 1, 0, 3);
  }

  lemma PlainZero(low: nat, last: nat)
    requires low < TWO64 && last < TWO64
    ensures PlainPath(FourTables(low, last), 1, 0, 3)
  {
    hide FourTables, Entry, Bit, Huge, Frame;
    FourEntries(low, last, 1, 0);
    FourEntries(low, last, 2, 0);
    FourEntries(low, last, 3, 0);
    OneBits(2);
    OneBits(3);
    OneBits(4);
    assert PlainPath(FourTables(low, last), 4, 0, 0);
  }
}
