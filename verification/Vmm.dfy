/** The virtual memory manager: page tables edited in place over the frame allocator. */
module Vmm {
  import opened Bytes
  import opened Paging
  import opened Mapping
  import opened MappingRuns
  import opened Strays
  import Frames = Pmm

  class Vmm {
    const pmm: Frames.Pmm
    var ram: Ram
    var pml4: nat
    ghost var tags: Tags

    ghost predicate Valid()
      reads this, pmm, pmm.bitmap
    {
      && pmm.Valid()
      && pmm.pageCount <= FRAMES
      && Typed(ram, tags)
      && IsRoot(tags, pml4)
      && (forall p :: p in pmm.free ==> 0 < p < FRAMES && p in ram && p !in tags)
    }

    ghost function View(): Space
      reads this
    {
      Space(ram, tags)
    }

    constructor (pmm: Frames.Pmm, ram: Ram, cr3: nat, ghost tags: Tags)
      requires pmm.Valid() && pmm.pageCount <= FRAMES
      requires Typed(ram, tags) && IsRoot(tags, Masked(cr3))
      requires forall p :: p in pmm.free ==> p in ram && p !in tags
      ensures Valid() && this.pmm == pmm && this.ram == ram && this.pml4 == Masked(cr3) && this.tags == tags
    {
      this.pmm, this.ram, this.tags := pmm, ram, tags;
      this.pml4 := Masked(cr3);
    }

    /** A zeroed frame, or `ok == false` where the kernel halts for want of one. */
    method AllocPageTable() returns (ok: bool, page: nat)
      requires Valid()
      modifies this`ram, pmm`free, pmm.bitmap
      ensures pmm.Valid()
      ensures !ok ==> ram == old(ram) && pmm.free == old(pmm.free)
      ensures ok <==> old(pmm.free) != {}
      ensures ok ==> 0 < page < TWO52 && page % 4096 == 0 && page / 4096 in old(pmm.free) && pmm.free == old(pmm.free) - {page / 4096}
      ensures ok ==> |pmm.free| == |old(pmm.free)| - 1
      ensures ok ==> Blank(ram, page / 4096) && ram.Keys == old(ram.Keys)
      ensures ok ==> forall f :: f in ram && f != page / 4096 ==> ram[f] == old(ram)[f]
    {
      page := pmm.Alloc();
      if page == 0 { return false, 0; }
      var f := page / 4096;
      for i := 0 to 512
        modifies this`ram
        invariant ram.Keys == old(ram.Keys)
        invariant forall g :: g in ram && g != f ==> ram[g] == old(ram)[g]
        invariant forall j :: 0 <= j < i ==> Entry(ram, f, j) == 0
      {
        forall j | 0 <= j < 512 { EntryOfSetEntry(ram, f, i, 0, f, j); }
        ram := SetEntry(ram, f, i, 0);
      }
      ok := true;
    }

    /** Links a blank page into an empty slot. */
    method LinkTable(ghost s: Space, page: nat, table: nat, index: nat)
      requires pmm.Valid() && pmm.pageCount <= FRAMES
      requires s.tags == tags && IsRoot(tags, pml4) && FreshTable(s, ram, table, index, page)
      requires forall p :: p in pmm.free ==> 0 < p < FRAMES && p in s.ram && p !in tags && p != page / 4096
      modifies this`ram, this`tags
      ensures Valid() && SlotEnsured(s, View(), table, index, page / 4096)
      ensures tags.Keys <= old(tags.Keys) + {page / 4096}
    {
      hide Frames.Pmm.Valid, Or, SlotEnsured, Typed, Entry, SetEntry, NewTableEntry, Child, Blank;
      NewTable(s, ram, table, index, page);
      var e' := NewTableEntry(page);
      ram := SetEntry(ram, table, index, e');
      tags := tags[Frame(e') := Child(tags[table], index)];
    }

    /** The branch of `ensure_table` for a slot that leads nowhere. */
    method AddTable(table: nat, index: nat) returns (ok: bool, child: nat)
      requires Valid()
      requires table in tags && tags[table].level > 0 && index < 512 && !Present(Entry(ram, table, index))
      modifies this`ram, this`tags, pmm`free, pmm.bitmap
      ensures Valid() && (|old(pmm.free)| > 0 <==> ok)
      ensures !ok ==> View() == old(View()) && pmm.free == old(pmm.free)
      ensures ok ==> SlotEnsured(old(View()), View(), table, index, child)
      ensures ok ==> child in old(pmm.free) && pmm.free == old(pmm.free) - {child} && tags.Keys <= old(tags.Keys) + {child}
    {
      hide Frames.Pmm.Valid, Or, SlotEnsured, Typed, Entry, Blank;
      ghost var s := View();
      var page;
      ok, page := AllocPageTable();
      if !ok { return false, 0; }
      LinkTable(s, page, table, index);
      child := page / 4096;
    }

    /** The table behind slot `index`, allocated if it is missing and opened to user writes either way. */
    method EnsureTable(table: nat, index: nat) returns (ok: bool, child: nat)
      requires Valid()
      requires table in tags && tags[table].level > 0 && index < 512
      requires Present(Entry(ram, table, index)) ==> !Large(Entry(ram, table, index), tags[table].level)
      modifies this`ram, this`tags, pmm`free, pmm.bitmap
      ensures Valid() && (ok <==> Present(old(Entry(ram, table, index))) || |old(pmm.free)| > 0)
      ensures !ok ==> View() == old(View()) && pmm.free == old(pmm.free)
      ensures ok ==> SlotEnsured(old(View()), View(), table, index, child)
      ensures ok ==> Present(old(Entry(ram, table, index))) || child in old(pmm.free)
      ensures ok ==> pmm.free == if Present(old(Entry(ram, table, index))) then old(pmm.free) else old(pmm.free) - {child}
      ensures tags.Keys <= old(tags.Keys) + old(pmm.free)
    {
      hide Frames.FreePages, Frames.Pmm.Valid, Or, SlotEnsured, SlotTyped, Bit, FromLe, ToLe, OpenedEntry;
      var e := Entry(ram, table, index);
      if !Present(e) {
        ok, child := AddTable(table, index);
      } else {
        OpenTable(View(), table, index);
        EntryBound(ram, table, index);
        OpenedEntryBits(e);
        var e' := OpenedEntry(e);
        MaskedIsFrame(e');
        child := Masked(e');
        ram := SetEntry(ram, table, index, e');
        ok := true;
      }
    }

    /** At most `n` of the frames `free` have been taken since the tables were `keys`, all of them for tables. */
    ghost predicate Took(free: set<nat>, keys: set<nat>, n: nat)
      reads this, pmm
    {
      pmm.free <= free && |pmm.free| >= |free| - n && tags.Keys <= keys + free
    }

    /** One `ensure_table` of a map, on the last table of the chain walked so far. */
    method EnsureNext(ghost s0: Space, ghost free: set<nat>, ghost v: Vpn, ghost path: seq<nat>, table: nat, index: nat)
      returns (ok: bool, child: nat)
      requires Valid() && IsRoot(s0.tags, pml4) && PathClear(s0.ram, pml4, v) && Prepares(s0, View(), pml4, v)
      requires 1 <= |path| <= 3 && Took(free, s0.tags.Keys, |path| - 1)
      requires Chain(View(), pml4, v, path) && table == path[|path| - 1] && index == Index(v, 4 - |path|)
      modifies this`ram, this`tags, pmm`free, pmm.bitmap
      ensures Valid() && Prepares(s0, View(), pml4, v)
      ensures Took(free, s0.tags.Keys, |path|)
      ensures ok ==> Chain(View(), pml4, v, path + [child])
      ensures ok ==> |pmm.free| + old(MissingAt(ram, table, v, 4 - |path|)) == |old(pmm.free)| + MissingAt(ram, child, v, 3 - |path|)
      ensures !ok ==> |pmm.free| == |old(pmm.free)| == 0 && old(MissingAt(ram, table, v, 4 - |path|)) > 0
    {
      hide Frames.Pmm.Valid, SlotEnsured, Typed, Entry, Walk, Leads, Chain, Prepares, Index, TagOf, PathClear, Bit;
      ghost var s := View();
      StillClear(s0, s, pml4, v);
      ChainTag(s, pml4, v, path);
      ChainClear(s, pml4, v, path);
      ok, child := EnsureTable(table, index);
      if ok {
        EnsuredMissing(s, View(), pml4, v, table, 4 - |path|, child);
        ChainStep(s, View(), pml4, v, path, child);
        PreparesTwice(s0, s, View(), pml4, v);
      }
    }

    /** The three `ensure_table` calls of a map. */
    method EnsurePath(virt: nat) returns (ok: bool, pt: nat, ghost path: seq<nat>)
      requires Valid() && PathClear(ram, pml4, VpnOf(virt))
      modifies this`ram, this`tags, pmm`free, pmm.bitmap
      ensures Valid() && Prepares(old(View()), View(), pml4, VpnOf(virt))
      ensures Took(old(pmm.free), old(tags.Keys), 3)
      ensures ok <==> |old(pmm.free)| >= old(MissingAt(ram, pml4, VpnOf(virt), 3))
      ensures if ok then |pmm.free| == |old(pmm.free)| - old(MissingAt(ram, pml4, VpnOf(virt), 3)) else pmm.free == {}
      ensures ok ==> |path| == 4 && path[3] == pt && Chain(View(), pml4, VpnOf(virt), path)
    {
      hide Frames.Pmm.Valid, Typed, Chain, Prepares, Index, IndexOf, VpnOf, PathClear, Valid;
      ghost var v := VpnOf(virt);
      ghost var s0, free := View(), pmm.free;
      PathStart(v);
      IndexOfVpn(virt, 3);
      IndexOfVpn(virt, 2);
      IndexOfVpn(virt, 1);
      path := [pml4];
      var pdpt, pd;
      ok, pdpt := EnsureNext(s0, free, v, path, pml4, IndexOf(virt, 3));
      if !ok { return false, 0, []; }
      path := path + [pdpt];
      ok, pd := EnsureNext(s0, free, v, path, pdpt, IndexOf(virt, 2));
      if !ok { return false, 0, []; }
      path := path + [pd];
      ok, pt := EnsureNext(s0, free, v, path, pd, IndexOf(virt, 1));
      path := path + [pt];
    }

    lemma PathStart(v: Vpn)
      requires Valid()
      ensures IsRoot(tags, pml4) && Chain(View(), pml4, v, [pml4]) && Prepares(View(), View(), pml4, v)
    {
      ChainStart(View(), pml4, v);
    }

    /** `pt[pti] = e` */
    method WriteLeaf(pt: nat, pti: nat, e: nat)
      requires Valid() && pt in tags && tags[pt].level == 0 && pti < 512 && e < TWO64
      modifies this`ram
      ensures Valid() && ram == SetEntry(old(ram), pt, pti, e) && ram.Keys == old(ram.Keys)
    {
      hide Frames.Pmm.Valid, SlotTyped, Entry;
      TypedAfterLeaf(ram, tags, pt, pti, e);
      ram := SetEntry(ram, pt, pti, e);
    }

    /** Maps the page of `virt` to the frame of `phys`; `ok` is false where the kernel halts. */
    method MapPage(virt: nat, phys: nat, flags: nat) returns (ok: bool)
      requires Valid() && PathClear(ram, pml4, VpnOf(virt)) && phys < TWO52 && FlagsOk(flags)
      modifies this`ram, this`tags, pmm`free, pmm.bitmap
      ensures Valid() && Took(old(pmm.free), old(tags.Keys), 3)
      ensures ok <==> |old(pmm.free)| >= old(MissingAt(ram, pml4, VpnOf(virt), 3))
      ensures if ok then |pmm.free| == |old(pmm.free)| - old(MissingAt(ram, pml4, VpnOf(virt), 3)) else pmm.free == {}
      ensures ok ==> MapStep(old(View()), View(), pml4, VpnOf(virt), PageEntry(phys, flags)) && ram.Keys == old(ram.Keys)
      ensures ok ==> MappedTo(Walk(ram, pml4, VpnOf(virt), 3), phys, flags)
      ensures !ok ==> Prepares(old(View()), View(), pml4, VpnOf(virt))
    {
      hide Frames.Pmm.Valid, Prepares, Chain, MapStep, PageEntry, IndexOf, VpnOf, SlotTyped, SetEntry, PathClear, MappedTo, Walk;
      ghost var s0 := View();
      var pt;
      ghost var path;
      ok, pt, path := EnsurePath(virt);
      if !ok { return; }
      PageEntryBits(phys, flags);
      IndexOfVpn(virt, 0);
      LeafSet(s0, View(), pml4, VpnOf(virt), path, PageEntry(phys, flags));
      WriteLeaf(pt, IndexOf(virt, 0), PageEntry(phys, flags));
      LeafMappedTo(phys, flags);
      StepLeaf(s0, View(), pml4, VpnOf(virt), PageEntry(phys, flags));
    }

    /** Clears the entry found for the page of `virt` by following every entry, whether the tables exist or not;
        `ok` is false where that leaves memory and the processor faults. */
    method UnmapPage(virt: nat) returns (ok: bool)
      requires Valid()
      modifies this`ram
      ensures Valid() && (ok <==> InMemory(old(ram), pml4, VpnOf(virt), 3)) && (!ok ==> ram == old(ram))
      ensures ok ==> LeafTable(old(ram), pml4, VpnOf(virt), 3) in old(ram) && ram == Cleared(old(ram), pml4, VpnOf(virt))
      ensures ok ==> StrayStep(old(View()), View(), LeafTable(old(ram), pml4, VpnOf(virt), 3), Index(VpnOf(virt), 0))
      ensures TablesExist(old(ram), pml4, VpnOf(virt), 3) ==> ok && UnmapStep(old(View()), View(), pml4, VpnOf(virt))
    {
      hide Frames.Pmm.Valid, Typed, StrayStep, UnmapStep, TablesExist, Entry, SetEntry, Index, IndexOf, VpnOf, Masked;
      ghost var v := VpnOf(virt);
      var pt;
      ok, pt := FindEntry(virt);
      if !ok {
        if TablesExist(ram, pml4, v, 3) { AllInMemory(v); }
        return;
      }
      LeafInMemory(ram, pml4, v, 3);
      StrayHolds(View(), pt, Index(v, 0));
      if TablesExist(ram, pml4, v, 3) {
        LeafCleared(View(), pml4, v);
      }
      IndexOfVpn(virt, 0);
      ClearSlot(pt, IndexOf(virt, 0));
    }

    /** The pointers followed down to the page table; `ok` is false where one of them leaves memory. */
    method FindEntry(virt: nat) returns (ok: bool, pt: nat)
      requires Valid()
      ensures ok <==> InMemory(ram, pml4, VpnOf(virt), 3)
      ensures ok ==> pt == LeafTable(ram, pml4, VpnOf(virt), 3)
    {
      hide Frames.Pmm.Valid, Entry, Index, IndexOf, VpnOf, Masked;
      IndexOfVpn(virt, 3);
      IndexOfVpn(virt, 2);
      IndexOfVpn(virt, 1);
      var pdpt := Masked(Entry(ram, pml4, IndexOf(virt, 3)));
      if pdpt !in ram { return false, 0; }
      var pd := Masked(Entry(ram, pdpt, IndexOf(virt, 2)));
      if pd !in ram { return false, 0; }
      pt := Masked(Entry(ram, pd, IndexOf(virt, 1)));
      ok := pt in ram;
    }

    lemma AllInMemory(v: Vpn)
      requires Valid() && TablesExist(ram, pml4, v, 3)
      ensures InMemory(ram, pml4, v, 3)
    {
      RootTagOf(pml4, v);
      TablesInMemory(View(), pml4, v, pml4, 3);
    }

    /** `pt[pti] = 0` in any frame. */
    method ClearSlot(pt: nat, pti: nat)
      requires Valid() && pt in ram && pti < 512
      modifies this`ram
      ensures Valid() && ram == SetEntry(old(ram), pt, pti, 0)
    {
      hide Frames.Pmm.Valid, Typed, Entry;
      StrayHolds(View(), pt, pti);
      ram := SetEntry(ram, pt, pti, 0);
    }

    /** The frame address in the page table entry of `virt`, whatever the entries above it say. */
    method VirtToPhys(virt: nat) returns (phys: nat)
      ensures phys == Answer(ram, pml4, VpnOf(virt))
    {
      ghost var v := VpnOf(virt);
      IndexOfVpn(virt, 3);
      IndexOfVpn(virt, 2);
      IndexOfVpn(virt, 1);
      IndexOfVpn(virt, 0);
      var pdpt := Masked(Entry(ram, pml4, IndexOf(virt, 3)));
      var pd := Masked(Entry(ram, pdpt, IndexOf(virt, 2)));
      var pt := Masked(Entry(ram, pd, IndexOf(virt, 1)));
      assert RawLeaf(ram, pml4, v, 3) == RawLeaf(ram, pdpt, v, 2);
      assert RawLeaf(ram, pdpt, v, 2) == RawLeaf(ram, pd, v, 1);
      assert RawLeaf(ram, pd, v, 1) == RawLeaf(ram, pt, v, 0);
      phys := PageBase(Entry(ram, pt, IndexOf(virt, 0)));
    }

    /** A new PML4 with the current upper half; its address, or 0 if no frame is free. */
    method CreateUserPml4() returns (phys: nat)
      requires Valid()
      modifies this`ram, this`tags, pmm`free, pmm.bitmap
      ensures Valid() && (phys == 0 <==> old(pmm.free) == {})
      ensures phys == 0 ==> View() == old(View())
      ensures phys != 0 ==> phys % 4096 == 0 && RootStep(old(View()), View(), pml4, Masked(phys))
    {
      hide Frames.Pmm.Valid, SlotTyped, Entry;
      ghost var s := View();
      phys := pmm.Alloc();
      if phys == 0 { return; }
      var f := Masked(phys);
      CopyUpperHalf(f);
      RootAdded(s, ram, pml4, f);
      tags := tags[f := RootTag(f)];
    }

    /** The two loops over the new PML4: zero its lower half, copy the current upper half. */
    method CopyUpperHalf(f: nat)
      requires f in ram && pml4 in ram && f != pml4
      modifies this`ram
      ensures ram.Keys == old(ram.Keys) && forall g :: g in ram && g != f ==> ram[g] == old(ram)[g]
      ensures forall i :: 0 <= i < 512 ==> Entry(ram, f, i) == if i < 256 then 0 else old(Entry(ram, pml4, i))
    {
      hide FromLe, ToLe;
      ghost var m := ram;
      for i := 0 to 256
        invariant ram.Keys == m.Keys
        invariant forall g :: g in ram && g != f ==> ram[g] == m[g]
        invariant forall j :: 0 <= j < i ==> Entry(ram, f, j) == 0
      {
        forall j | 0 <= j < 512 { EntryOfSetEntry(ram, f, i, 0, f, j); }
        ram := SetEntry(ram, f, i, 0);
      }
      for i := 256 to 512
        invariant ram.Keys == m.Keys
        invariant forall g :: g in ram && g != f ==> ram[g] == m[g]
        invariant forall j :: 0 <= j < i ==> Entry(ram, f, j) == if j < 256 then 0 else Entry(m, pml4, j)
      {
        var e := Entry(ram, pml4, i);
        assert e == Entry(m, pml4, i);
        EntryBound(ram, pml4, i);
        forall j | 0 <= j < 512 { EntryOfSetEntry(ram, f, i, e, f, j); }
        ram := SetEntry(ram, f, i, e);
      }
    }

    method SwitchPml4(phys: nat)
      requires Valid() && IsRoot(tags, Masked(phys))
      modifies this`pml4
      ensures Valid() && pml4 == Masked(phys)
    {
      pml4 := Masked(phys);
    }

    /** Maps `size` bytes, rounded up to pages, of virtual to physical addresses. */
    method MapRange(virt: nat, phys: nat, size: nat, flags: nat) returns (ok: bool)
      requires Valid() && FlagsOk(flags)
      requires virt + size + 4095 < TWO64 && phys + size + 4095 < TWO52 && (size + 4095) / 4096 <= PAGES
      requires forall w: Vpn :: Distance(VpnOf(virt), w) < (size + 4095) / 4096 ==> PathClear(ram, pml4, w)
      modifies this`ram, this`tags, pmm`free, pmm.bitmap
      ensures Valid()
      ensures ok ==> RangeMapped(old(View()), View(), pml4, VpnOf(virt), (size + 4095) / 4096, phys, flags)
      ensures ok ==> forall w: Vpn :: Distance(VpnOf(virt), w) < (size + 4095) / 4096 ==>
        MappedTo(Walk(ram, pml4, w, 3), phys + Distance(VpnOf(virt), w) * 4096, flags)
      ensures |old(pmm.free)| >= 3 * ((size + 4095) / 4096) ==> ok
    {
      hide Frames.Pmm.Valid, RangeMapped, Typed, MapStep, Prepares, Walk, PageEntry, MissingAt, PathClear, Distance, VpnOf, PageAfter, MappedTo;
      var pages := (size + 4095) / 4096;
      ghost var s, v := View(), VpnOf(virt);
      RangeMapsNothing(s, pml4, v, phys, flags);
      ok := true;
      for i := 0 to pages
        invariant Valid() && RangeMapped(s, View(), pml4, v, i, phys, flags)
        invariant |pmm.free| >= |old(pmm.free)| - 3 * i
      {
        VpnAfter(virt, i);
        RangeClear(s, View(), pml4, v, i, phys, flags);
        ghost var s1 := View();
        ok := MapPage(virt + i * 4096, phys + i * 4096, flags);
        if !ok { return; }
        RangeGrows(s, s1, View(), pml4, v, i, phys, flags);
      }
      RangeBits(s, View(), pml4, v, pages, phys, flags);
    }

    /** Unmaps `size` bytes, rounded up to pages, one after the other; `ok` is false where one of them faults. */
    method UnmapRange(virt: nat, size: nat) returns (ok: bool)
      requires Valid() && virt + size + 4095 < TWO64 && (size + 4095) / 4096 <= PAGES
      modifies this`ram
      ensures Valid()
      ensures ok <==> ClearedRange(old(ram), pml4, VpnOf(virt), (size + 4095) / 4096).Some?
      ensures ok ==> ClearedRange(old(ram), pml4, VpnOf(virt), (size + 4095) / 4096) == Some(ram)
      ensures AllTables(old(ram), pml4, VpnOf(virt), (size + 4095) / 4096) ==>
        ok && RangeUnmapped(old(View()), View(), pml4, VpnOf(virt), (size + 4095) / 4096)
    {
      hide Frames.Pmm.Valid, RangeUnmapped, Typed, UnmapStep, StrayStep, Walk, TablesExist, AllTables, Distance, VpnOf, InMemory, Cleared, LeafTable;
      var pages := (size + 4095) / 4096;
      ghost var s, v := View(), VpnOf(virt);
      RangeUnmapsNothing(s, pml4, v);
      ok := true;
      for i := 0 to pages
        modifies this`ram
        invariant Valid() && ok && ClearedRange(s.ram, pml4, v, i) == Some(ram)
        invariant AllTables(s.ram, pml4, v, pages) ==> RangeUnmapped(s, View(), pml4, v, i)
      {
        VpnAfter(virt, i);
        ghost var s1 := View();
        if AllTables(s.ram, pml4, v, pages) {
          NextTables(s, s1, pml4, v, i, pages);
        }
        ok := UnmapPage(virt + i * 4096);
        if !ok {
          RangeFaults(s.ram, pml4, v, i + 1, pages);
          return;
        }
        if AllTables(s.ram, pml4, v, pages) {
          UnmappedGrows(s, s1, View(), pml4, v, i);
        }
      }
    }

    /** Mapping a range of unmapped pages and unmapping it again: the second call is always allowed, and
        together they restore what the root translates. */
    method MapAndUnmapRange(virt: nat, phys: nat, size: nat, flags: nat) returns (ok: bool)
      requires Valid() && FlagsOk(flags)
      requires virt + size + 4095 < TWO64 && phys + size + 4095 < TWO52 && (size + 4095) / 4096 <= PAGES
      requires forall w: Vpn :: Distance(VpnOf(virt), w) < (size + 4095) / 4096 ==> Walk(ram, pml4, w, 3) == Unmapped
      modifies this`ram, this`tags, pmm`free, pmm.bitmap
      ensures ok ==> Valid() && forall w: Vpn :: Restored(old(View()), View(), pml4, w)
      ensures |old(pmm.free)| >= 3 * ((size + 4095) / 4096) ==> ok
    {
      hide Frames.Pmm.Valid, RangeMapped, RangeUnmapped, Typed, Walk, Distance, VpnOf, Restored, TablesExist;
      ghost var s, v, n := View(), VpnOf(virt), (size + 4095) / 4096;
      ok := MapRange(virt, phys, size, flags);
      if !ok { return; }
      ghost var s1 := View();
      assert AllTables(s1.ram, pml4, v, n) by {
        forall w: Vpn | Distance(v, w) < n
          ensures TablesExist(s1.ram, pml4, w, 3)
        {
          RangeHasTables(s, s1, pml4, v, n, phys, flags, w);
        }
      }
      var unmapped := UnmapRange(virt, size);
      forall w: Vpn
        ensures Restored(s, View(), pml4, w)
      {
        MapThenUnmap(s, s1, View(), pml4, v, n, phys, flags, w);
      }
    }
  }
}
