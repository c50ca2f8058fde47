/** How the steps of the virtual memory manager change what every root translates: preparing the
    tables on the way to a page, writing its page table entry, and runs of such steps. */
module Mapping {
  import opened Bytes
  import opened Paging

  /** A snapshot of physical memory with the tags of its tables. */
  datatype Space = Space(ram: Ram, tags: Tags)

  function VpnOf(virt: nat): Vpn { virt / 4096 % PAGES }

  /** `(virt >> (12 + 9 * level)) & 0x1FF` */
  function IndexOf(virt: nat, level: nat): nat { virt / 4096 / Span(level) % 512 }

  lemma IndexOfVpn(virt: nat, level: nat)
    requires level <= 3
    ensures IndexOf(virt, level) == Index(VpnOf(virt), level)
  {
    var p := virt / 4096;
    var n := PAGES / Span(level) / 512;
    assert PAGES == n * 512 * Span(level);
    DivOfMod(p, n, Span(level));
  }

  lemma DivOfMod(p: nat, n: nat, d: nat)
    requires n > 0 && d > 0
    ensures p / d % 512 == (p % (n * 512 * d)) / d % 512
  {
    var m := n * 512 * d;
    var q, v := p / m, p % m;
    var k := n * q;
    assert p == d * (512 * k) + v by {
      assert p == m * q + v;
      assert m * q == d * (512 * (n * q));
    }
    DivAdd(d, 512 * k, v);
    assert (512 * k + v / d) % 512 == v / d % 512;
  }

  lemma DivAdd(d: nat, k: nat, v: nat)
    requires d > 0
    ensures (d * k + v) / d == k + v / d
  {
    assert d * k + v == d * (k + v / d) + v % d;
    ModUnique(d * k + v, d, k + v / d, v % d);
  }

  /** Nine address bits for each level: 12 to 20 for the page table, up to 39 to 47 for the PML4. */
  lemma IndexBits(virt: nat, level: nat)
    requires level <= 3
    ensures IndexOf(virt, level) == Shift(virt, 12 + 9 * level) % 512
  {
    hide Shift;
    ShiftIs(virt, 12 + 9 * level);
    Pow2Twelve();
    assert Pow2(9) == 512 by { assert Pow2(4) == 16; Pow2Sum(4, 4); Pow2Sum(8, 1); assert Pow2(1) == 2; }
    Pow2Sum(12, 9);
    Pow2Sum(21, 9);
    Pow2Sum(30, 9);
    assert Pow2(12 + 9 * level) == 4096 * Span(level);
    DivTwice(virt, 4096, Span(level));
  }

  /** The upper half is that of addresses with bit 47 set. */
  lemma UpperIsBit47(virt: nat)
    ensures Upper(VpnOf(virt)) <==> Bit(virt, 47)
  {
    hide Shift;
    IndexOfVpn(virt, 3);
    IndexBits(virt, 3);
    ShiftSum(virt, 39, 8);
    TopOfNine(Shift(virt, 39));
  }

  lemma TopOfNine(x: nat)
    ensures x % 512 >= 256 <==> Shift(x, 8) % 2 == 1
  {
    ShiftIs(x, 8);
    assert Pow2(4) == 16;
    Pow2Sum(4, 4);
    assert x / 256 % 2 == 1 <==> x % 512 >= 256;
  }

  /** The 64-bit word at slot `i` of frame `f`. */
  function Word(m: Ram, f: nat, i: nat): nat
    requires f in m && i < 512
  {
    FromLe(m[f][8 * i..8 * i + 8])
  }

  /** The walk of a 4 KiB page, spelled out: at each level the word at nine address bits; bit 0 present, bit 7 a
      large page, bits 12 to 51 the next frame, and the access the AND of bits 2 and of bits 1. */
  lemma WalkSpelled(m: Ram, root: nat, virt: nat, e3: nat, e2: nat, e1: nat, e0: nat)
    requires root in m && e3 == Word(m, root, Shift(virt, 39) % 512) && e3 % 2 == 1
    requires var f := e3 / 4096 % 0x100_0000_0000; f in m && e2 == Word(m, f, Shift(virt, 30) % 512) && e2 % 2 == 1 && e2 / 128 % 2 == 0
    requires var f := e2 / 4096 % 0x100_0000_0000; f in m && e1 == Word(m, f, Shift(virt, 21) % 512) && e1 % 2 == 1 && e1 / 128 % 2 == 0
    requires var f := e1 / 4096 % 0x100_0000_0000; f in m && e0 == Word(m, f, Shift(virt, 12) % 512)
    ensures Walk(m, root, VpnOf(virt), 3) ==
      if e0 % 2 == 0 then Unmapped
      else Mapped(e0, 0, e0 / 4 % 2 == 1 && e1 / 4 % 2 == 1 && e2 / 4 % 2 == 1 && e3 / 4 % 2 == 1,
                  e0 / 2 % 2 == 1 && e1 / 2 % 2 == 1 && e2 / 2 % 2 == 1 && e3 / 2 % 2 == 1)
  {
    hide Shift, FromLe, VpnOf, Index, IndexOf, Bit, Entry;
    IndexOfVpn(virt, 3); IndexOfVpn(virt, 2); IndexOfVpn(virt, 1); IndexOfVpn(virt, 0);
    IndexBits(virt, 3); IndexBits(virt, 2); IndexBits(virt, 1); IndexBits(virt, 0);
    EntryIs(m, root, Index(VpnOf(virt), 3));
    EntryIs(m, Frame(e3), Index(VpnOf(virt), 2));
    EntryIs(m, Frame(e2), Index(VpnOf(virt), 1));
    EntryIs(m, Frame(e1), Index(VpnOf(virt), 0));
    FlagDigits(e3); FlagDigits(e2); FlagDigits(e1); FlagDigits(e0);
    assert Walk(m, Frame(e1), VpnOf(virt), 0) == PageLeaf(e0);
    assert Walk(m, Frame(e2), VpnOf(virt), 1) == PageLeaf(e0).Under(e1);
    assert Walk(m, Frame(e3), VpnOf(virt), 2) == PageLeaf(e0).Under(e1).Under(e2);
  }

  lemma EntryIs(m: Ram, f: nat, i: nat)
    requires f in m && i < 512
    ensures Entry(m, f, i) == Word(m, f, i)
  {
  }

  lemma FlagDigits(e: nat)
    ensures (Present(e) <==> e % 2 == 1) && (Writable(e) <==> e / 2 % 2 == 1) && (User(e) <==> e / 4 % 2 == 1) && (Huge(e) <==> e / 128 % 2 == 1)
  {
    Shift7(e);
    Shift2(e, 0);
    assert Shift(e, 1) == Shift(e / 2, 0);
  }

  /** Tables are only added, and only from frames that were free. */
  ghost predicate Grows(s: Space, s': Space) {
    && s'.ram.Keys == s.ram.Keys
    && s.tags.Keys <= s'.tags.Keys
    && (forall t :: t in s.tags ==> s'.tags[t] == s.tags[t])
    && (forall f :: f in s.ram && f !in s'.tags ==> s'.ram[f] == s.ram[f])
  }

  /** No entry of a table that is not present has any bit set. */
  ghost predicate Tidy(s: Space) {
    forall t, i :: t in s.tags && i < 512 ==> TidySlot(s.ram, t, i)
  }

  predicate TidySlot(m: Ram, t: nat, i: nat) { !Present(Entry(m, t, i)) ==> Entry(m, t, i) == 0 }

  /** No entry of a table has a bit from 52 up. */
  ghost predicate Low(s: Space) {
    forall t, i :: t in s.tags && i < 512 ==> LowSlot(s.ram, t, i)
  }

  predicate LowSlot(m: Ram, t: nat, i: nat) { Entry(m, t, i) < TWO52 }

  /** A step that writes entry `e` leaves no stray bits behind, and brings no high ones but those of `e`. */
  ghost predicate TidyKept(s: Space, s': Space, e: nat) {
    (Tidy(s) ==> Tidy(s')) && (e < TWO52 && Low(s) ==> Low(s'))
  }

  /** The PML4 slots of all roots but one are as they were, and those of that one still lead where they led. */
  ghost predicate TopsKept(s: Space, s': Space, root: nat) {
    forall r, i :: IsRoot(s.tags, r) && i < 512 ==>
      if r == root then SameFrame(Entry(s.ram, r, i), Entry(s'.ram, r, i)) else Entry(s'.ram, r, i) == Entry(s.ram, r, i)
  }

  predicate SameFrame(e: nat, e': nat) { Present(e) ==> Present(e') && Frame(e') == Frame(e) }

  /** What `ensure_table` on slot `i` of a table does to every translation: pages that do not use
      the slot are untouched, the others keep their leaf and lose no permission. */
  ghost predicate TableStep(s: Space, s': Space, tag: Tag, i: nat) {
    && Grows(s, s')
    && (forall r, v: Vpn :: IsRoot(s.tags, r) ==> Widens(Walk(s.ram, r, v, 3), Walk(s'.ram, r, v, 3)))
    && (forall r, v: Vpn :: IsRoot(s.tags, r) && !Visits(tag, i, r, v) ==> Walk(s'.ram, r, v, 3) == Walk(s.ram, r, v, 3))
  }

  lemma SetSlot(m: Ram, tags: Tags, t0: nat, i0: nat, e: nat)
    requires t0 in m && i0 < 512 && e < TWO64
    ensures var m' := SetEntry(m, t0, i0, e); Entry(m', t0, i0) == e && OnlySlot(m, m', tags, t0, i0)
    ensures var m' := SetEntry(m, t0, i0, e); forall t :: t != t0 && Blank(m, t) ==> Blank(m', t)
  {
    var m' := SetEntry(m, t0, i0, e);
    forall t: nat, i: nat | i < 512
      ensures Entry(m', t, i) == if t == t0 && i == i0 then e else Entry(m, t, i)
    {
      EntryOfSetEntry(m, t0, i0, e, t, i);
    }
  }

  lemma TableStepHolds(s: Space, s': Space, t0: nat, i0: nat)
    requires Typed(s.ram, s.tags) && Grows(s, s') && OnlySlot(s.ram, s'.ram, s.tags, t0, i0)
    requires t0 in s.tags && i0 < 512 && s.tags[t0].level > 0
    requires Ensured(s.ram, s'.ram, Entry(s.ram, t0, i0), Entry(s'.ram, t0, i0), s.tags[t0].level)
    ensures TableStep(s, s', s.tags[t0], i0)
  {
    forall r, v: Vpn | IsRoot(s.tags, r)
      ensures Widens(Walk(s.ram, r, v, 3), Walk(s'.ram, r, v, 3))
      ensures !Visits(s.tags[t0], i0, r, v) ==> Walk(s'.ram, r, v, 3) == Walk(s.ram, r, v, 3)
    {
      RootTagOf(r, v);
      EnsuredKeeps(s.ram, s'.ram, s.tags, t0, i0, r, v, r, 3);
      if !Visits(s.tags[t0], i0, r, v) {
        Unvisited(s.ram, s'.ram, s.tags, t0, i0, r, v, r, 3);
      }
    }
  }

  /** A slot that has been made to lead to a table stays within the typed tree. */
  lemma TypedAfterEnsure(s: Space, s': Space, t0: nat, i0: nat, child: nat)
    requires Typed(s.ram, s.tags) && OnlySlot(s.ram, s'.ram, s.tags, t0, i0)
    requires t0 in s.tags && i0 < 512 && s.tags[t0].level > 0 && child in s'.ram && child != SHARED
    requires s'.ram.Keys == s.ram.Keys && Frame(Entry(s'.ram, t0, i0)) == child && Entry(s'.ram, t0, i0) < TWO52
    requires s'.tags == s.tags[child := Child(s.tags[t0], i0)]
    requires child !in s.tags ==> Blank(s'.ram, child)
    requires child in s.tags ==> s.tags[child] == Child(s.tags[t0], i0)
    ensures Typed(s'.ram, s'.tags)
  {
    forall t, i | t in s'.tags && i < 512
      ensures SlotTyped(s'.ram, s'.tags, t, i)
    {
      if t in s.tags {
        assert SlotTyped(s.ram, s.tags, t, i);
      } else {
        assert Entry(s'.ram, t, i) == 0;
      }
    }
  }

  /** The whole effect of `ensure_table`: slot `index` leads to `child`, open to user writes. */
  ghost predicate SlotEnsured(s: Space, s': Space, table: nat, index: nat, child: nat) {
    && table in s.tags && s.tags[table].level > 0
    && Typed(s'.ram, s'.tags)
    && TableStep(s, s', s.tags[table], index)
    && OnlySlot(s.ram, s'.ram, s.tags, table, index)
    && child in s'.tags && s'.tags[child] == Child(s.tags[table], index)
    && s'.tags.Keys <= s.tags.Keys + {child}
    && Leads(s'.ram, table, index, s.tags[table].level, child)
    && ChildIs(s, s', Entry(s.ram, table, index), child) && TidyKept(s, s', 0)
  }

  /** The table a slot led to, or a blank one. */
  ghost predicate ChildIs(s: Space, s': Space, e: nat, child: nat) {
    if Present(e) then child == Frame(e) && child in s.tags else child !in s.tags && Blank(s'.ram, child)
  }

  /** Only one slot, of a present entry or a zero one, and the slots of a blank table are new. */
  lemma TidyAfter(s: Space, s': Space, t0: nat, i0: nat, child: nat)
    requires OnlySlot(s.ram, s'.ram, s.tags, t0, i0) && s'.tags.Keys <= s.tags.Keys + {child}
    requires t0 in s.tags && i0 < 512 && TidySlot(s'.ram, t0, i0)
    requires child !in s.tags ==> Blank(s'.ram, child)
    ensures TidyKept(s, s', Entry(s'.ram, t0, i0)) && (Entry(s'.ram, t0, i0) < TWO52 ==> TidyKept(s, s', 0))
  {
    hide Entry, Bit;
    forall t, i | t in s'.tags && i < 512
      ensures Tidy(s) ==> TidySlot(s'.ram, t, i)
      ensures Low(s) && Entry(s'.ram, t0, i0) < TWO52 ==> LowSlot(s'.ram, t, i)
    {
      if t in s.tags {
        assert Tidy(s) ==> TidySlot(s.ram, t, i);
        assert Low(s) ==> LowSlot(s.ram, t, i);
      }
    }
  }

  /** `page` has just been allocated and zeroed for the empty slot `(t0, i0)` of `s`. */
  ghost predicate FreshTable(s: Space, blank: Ram, t0: nat, i0: nat, page: nat) {
    && Typed(s.ram, s.tags) && t0 in s.tags && i0 < 512 && s.tags[t0].level > 0
    && !Present(Entry(s.ram, t0, i0))
    && 0 < page < TWO52 && page % 4096 == 0
    && page / 4096 in s.ram && page / 4096 !in s.tags
    && blank.Keys == s.ram.Keys && Blank(blank, page / 4096)
    && forall f :: f in s.ram && f != page / 4096 ==> blank[f] == s.ram[f]
  }

  /** A missing slot filled with a blank table from a frame that was in no table. */
  lemma NewTable(s: Space, blank: Ram, t0: nat, i0: nat, page: nat)
    requires FreshTable(s, blank, t0, i0, page)
    ensures t0 in blank && i0 < 512 && t0 in s.tags && s.tags[t0].level > 0
    ensures var e := NewTableEntry(page);
      var s' := Space(SetEntry(blank, t0, i0, e), s.tags[Frame(e) := Child(s.tags[t0], i0)]);
      Frame(e) == page / 4096 && Typed(s'.ram, s'.tags) && s'.ram.Keys == s.ram.Keys && SlotEnsured(s, s', t0, i0, Frame(e))
  {
    hide Walk, Or, NewTableEntry;
    var frame := page / 4096;
    var e := NewTableEntry(page);
    var s' := Space(SetEntry(blank, t0, i0, e), s.tags[frame := Child(s.tags[t0], i0)]);
    NewTableEntryBits(frame);
    SetSlot(blank, s.tags, t0, i0, e);
    assert OnlySlot(s.ram, s'.ram, s.tags, t0, i0) by {
      forall t, i | t in s.tags && i < 512 && !(t == t0 && i == i0)
        ensures Entry(s'.ram, t, i) == Entry(s.ram, t, i)
      {
        assert Entry(blank, t, i) == Entry(s.ram, t, i);
      }
    }
    TypedAfterEnsure(s, s', t0, i0, frame);
    TableStepHolds(s, s', t0, i0);
    TidyAfter(s, s', t0, i0, frame);
  }

  /** A slot that leads to a table gets the user and write bits. */
  lemma OpenTable(s: Space, t0: nat, i0: nat)
    requires Typed(s.ram, s.tags) && t0 in s.tags && i0 < 512 && s.tags[t0].level > 0
    requires Present(Entry(s.ram, t0, i0)) && !Large(Entry(s.ram, t0, i0), s.tags[t0].level)
    ensures Typed(SetEntry(s.ram, t0, i0, OpenedEntry(Entry(s.ram, t0, i0))), s.tags)
    ensures Frame(Entry(s.ram, t0, i0)) in s.tags && OpenedEntry(Entry(s.ram, t0, i0)) < TWO52
    ensures SlotEnsured(s, Space(SetEntry(s.ram, t0, i0, OpenedEntry(Entry(s.ram, t0, i0))), s.tags), t0, i0, Frame(Entry(s.ram, t0, i0)))
  {
    var e := Entry(s.ram, t0, i0);
    var s' := Space(SetEntry(s.ram, t0, i0, OpenedEntry(e)), s.tags);
    assert SlotTyped(s.ram, s.tags, t0, i0);
    EntryBound(s.ram, t0, i0);
    OpenedEntryBits(e);
    SetSlot(s.ram, s.tags, t0, i0, OpenedEntry(e));
    assert s.tags == s.tags[Frame(e) := Child(s.tags[t0], i0)];
    TypedAfterEnsure(s, s', t0, i0, Frame(e));
    TableStepHolds(s, s', t0, i0);
    TidyAfter(s, s', t0, i0, Frame(e));
  }

  /** `(phys & ~0xFFF) | flags | PTE_PRESENT` */
  function PageEntry(phys: nat, flags: nat): nat {
    Or(Or(PageBase(phys), flags), PTE_PRESENT)
  }

  /** Every translation keeps its leaf and loses no permission. */
  ghost predicate AllWiden(s: Space, s': Space) {
    forall r, w: Vpn :: IsRoot(s.tags, r) ==> Widens(Walk(s.ram, r, w, 3), Walk(s'.ram, r, w, 3))
  }

  /** All translations but the lower half of `root` are untouched. */
  ghost predicate OthersKept(s: Space, s': Space, root: nat) {
    forall r, w: Vpn :: IsRoot(s.tags, r) && (r != root || Upper(w)) ==> Walk(s'.ram, r, w, 3) == Walk(s.ram, r, w, 3)
  }

  /** The PML4 slot of the page leads to a table below which the page translates to `e` with full access. */
  ghost predicate OpenBelow(m: Ram, root: nat, v: Vpn, e: nat) {
    var top := Entry(m, root, Index(v, 3));
    Present(top) && Walk(m, Frame(top), v, 2) == PageLeaf(e)
  }

  /** Page `v` of `root` is set to entry `e`, and every other page keeps its leaf. Only a page of the
      upper half is shared with other roots; a lower-half change is invisible to all of them. */
  ghost predicate MapStep(s: Space, s': Space, root: nat, v: Vpn, e: nat) {
    && Typed(s'.ram, s'.tags) && Grows(s, s')
    && TablesExist(s'.ram, root, v, 3)
    && RawLeaf(s'.ram, root, v, 3) == e && Walk(s'.ram, root, v, 3) == PageLeaf(e) && Present(e)
    && OpenBelow(s'.ram, root, v, e) && TidyKept(s, s', e) && TopsKept(s, s', root)
    && (forall r, w: Vpn :: IsRoot(s.tags, r) && !(w == v && (r == root || Upper(v))) ==> Widens(Walk(s.ram, r, w, 3), Walk(s'.ram, r, w, 3)))
    && (!Upper(v) ==> OthersKept(s, s', root))
  }

  /** Allocating or opening the tables on the way to a lower-half page is invisible to other roots. */
  lemma PrivateSlot(s: Space, s': Space, root: nat, v: Vpn, level: nat)
    requires 0 < level <= 3 && root != SHARED && SHARED !in s.tags
    requires TableStep(s, s', TagOf(root, v, level), Index(v, level)) && !Upper(v)
    ensures OthersKept(s, s', root)
  {
  }

  /** What preparing the tables for page `v` of `root` may do. */
  ghost predicate Prepares(s: Space, s': Space, root: nat, v: Vpn) {
    && Typed(s'.ram, s'.tags) && Grows(s, s') && AllWiden(s, s') && (!Upper(v) ==> OthersKept(s, s', root))
    && TidyKept(s, s', 0) && TopsKept(s, s', root)
  }

  lemma PreparesTwice(s0: Space, s1: Space, s2: Space, root: nat, v: Vpn)
    requires Prepares(s0, s1, root, v) && Prepares(s1, s2, root, v)
    ensures Prepares(s0, s2, root, v)
  {
    hide Walk, Entry, Tidy, Typed;
    forall r, w: Vpn | IsRoot(s0.tags, r)
      ensures Widens(Walk(s0.ram, r, w, 3), Walk(s2.ram, r, w, 3))
      ensures !Upper(v) && (r != root || Upper(w)) ==> Walk(s2.ram, r, w, 3) == Walk(s0.ram, r, w, 3)
    {
      assert IsRoot(s1.tags, r);
      assert Widens(Walk(s0.ram, r, w, 3), Walk(s1.ram, r, w, 3));
    }
  }

  lemma StillClear(s: Space, s': Space, root: nat, v: Vpn)
    requires Prepares(s, s', root, v) && IsRoot(s.tags, root) && PathClear(s.ram, root, v)
    ensures PathClear(s'.ram, root, v) && IsRoot(s'.tags, root)
  {
  }

  /** The tables walked from `root` down to page `v`, each leading to the next with every permission. */
  ghost predicate Chain(s: Space, root: nat, v: Vpn, path: seq<nat>) {
    && 1 <= |path| <= 4 && path[0] == root
    && (forall k :: 0 <= k < |path| ==> path[k] in s.tags && s.tags[path[k]] == TagOf(root, v, 3 - k))
    && (forall k :: 0 <= k < |path| - 1 ==> Leads(s.ram, path[k], Index(v, 3 - k), 3 - k, path[k + 1]))
  }

  lemma ChainStart(s: Space, root: nat, v: Vpn)
    requires IsRoot(s.tags, root)
    ensures Chain(s, root, v, [root])
  {
    RootTagOf(root, v);
  }

  /** One `ensure_table` extends the chain by a table. */
  lemma ChainStep(s: Space, s': Space, root: nat, v: Vpn, path: seq<nat>, child: nat)
    requires Typed(s.ram, s.tags) && Chain(s, root, v, path) && |path| <= 3
    requires SlotEnsured(s, s', path[|path| - 1], Index(v, 4 - |path|), child)
    ensures Prepares(s, s', root, v) && Chain(s', root, v, path + [child])
  {
    hide Prepares, Chain, SlotEnsured, Index;
    ChainTag(s, root, v, path);
    EnsuredPrepares(s, s', root, v, path[|path| - 1], 4 - |path|, child);
    ChainLonger(s, s', root, v, path, child);
  }

  lemma EnsuredPrepares(s: Space, s': Space, root: nat, v: Vpn, table: nat, level: nat, child: nat)
    requires Typed(s.ram, s.tags) && 0 < level <= 3 && root in s.tags
    requires table in s.tags && s.tags[table] == TagOf(root, v, level) && SlotEnsured(s, s', table, Index(v, level), child)
    ensures Prepares(s, s', root, v)
  {
    hide Walk, Entry, SlotTyped, TidyKept, Bit, Frame;
    if !Upper(v) {
      PrivateSlot(s, s', root, v, level);
    }
    SlotTopsKept(s, s', root, v, table, Index(v, level), level);
  }

  lemma ChainLonger(s: Space, s': Space, root: nat, v: Vpn, path: seq<nat>, child: nat)
    requires Chain(s, root, v, path) && |path| <= 3
    requires SlotEnsured(s, s', path[|path| - 1], Index(v, 4 - |path|), child)
    ensures Chain(s', root, v, path + [child])
  {
    hide Walk, Entry, Bit, Frame, Large, ChildIs, TidyKept, Typed;
    ChainTag(s, root, v, path);
    ChildTag(root, v, 4 - |path|);
    forall k | 0 <= k < |path| - 1
      ensures Leads(s'.ram, path[k], Index(v, 3 - k), 3 - k, path[k + 1])
    {
      assert s.tags[path[k]].level != s.tags[path[|path| - 1]].level;
    }
  }

  // ----- how many tables are missing

  lemma MissingBlank(m: Ram, t: nat, v: nat, level: nat)
    requires Blank(m, t)
    ensures MissingAt(m, t, v, level) == level
  {
    if level > 0 { assert Entry(m, t, Index(v, level)) == 0; }
  }

  /** A write to a slot higher up changes nothing about the tables below. */
  lemma {:induction false} MissingKept(s: Space, s': Space, root: nat, v: Vpn, t0: nat, i0: nat, t: nat, level: nat)
    requires Typed(s.ram, s.tags) && OnlySlot(s.ram, s'.ram, s.tags, t0, i0) && t0 in s.tags && level < s.tags[t0].level
    requires t in s.tags && s.tags[t] == TagOf(root, v, level)
    ensures MissingAt(s'.ram, t, v, level) == MissingAt(s.ram, t, v, level)
    decreases level
  {
    var e := Entry(s.ram, t, Index(v, level));
    assert Entry(s'.ram, t, Index(v, level)) == e;
    if level > 0 && Present(e) && !Large(e, level) {
      assert SlotTyped(s.ram, s.tags, t, Index(v, level));
      ChildTag(root, v, level);
      MissingKept(s, s', root, v, t0, i0, Frame(e), level - 1);
    }
  }

  /** One `ensure_table` leaves one table less to allocate, if its slot was empty. */
  lemma EnsuredMissing(s: Space, s': Space, root: nat, v: Vpn, table: nat, level: nat, child: nat)
    requires Typed(s.ram, s.tags) && table in s.tags && s.tags[table] == TagOf(root, v, level) && 0 < level <= 3
    requires SlotEnsured(s, s', table, Index(v, level), child)
    requires Present(Entry(s.ram, table, Index(v, level))) ==> !Large(Entry(s.ram, table, Index(v, level)), level)
    ensures MissingAt(s.ram, table, v, level)
            == MissingAt(s'.ram, child, v, level - 1) + if Present(Entry(s.ram, table, Index(v, level))) then 0 else 1
  {
    hide Walk, TableStep, TidyKept, Entry;
    var e := Entry(s.ram, table, Index(v, level));
    if Present(e) {
      assert SlotTyped(s.ram, s.tags, table, Index(v, level));
      ChildTag(root, v, level);
      MissingKept(s, s', root, v, table, Index(v, level), child, level - 1);
    } else {
      MissingBlank(s'.ram, child, v, level - 1);
    }
  }

  lemma ChainTag(s: Space, root: nat, v: Vpn, path: seq<nat>)
    requires Chain(s, root, v, path)
    ensures 1 <= |path| <= 4
    ensures path[|path| - 1] in s.tags && s.tags[path[|path| - 1]] == TagOf(root, v, 4 - |path|)
    ensures s.tags[path[|path| - 1]].level == 4 - |path| && root in s.tags
  {
  }

  /** A chain can be walked in one go. */
  lemma {:induction false} ChainWalk(s: Space, root: nat, v: Vpn, path: seq<nat>)
    requires Chain(s, root, v, path)
    ensures var t, l := path[|path| - 1], 4 - |path|;
      && Walk(s.ram, root, v, 3) == Walk(s.ram, t, v, l) && RawLeaf(s.ram, root, v, 3) == RawLeaf(s.ram, t, v, l)
      && (TablesExist(s.ram, root, v, 3) <==> TablesExist(s.ram, t, v, l))
  {
    if |path| > 1 {
      var front := path[..|path| - 1];
      assert Chain(s, root, v, front) by {
        forall k | 0 <= k < |front| - 1
          ensures Leads(s.ram, front[k], Index(v, 3 - k), 3 - k, front[k + 1])
        {
          assert Leads(s.ram, path[k], Index(v, 3 - k), 3 - k, path[k + 1]);
        }
      }
      ChainWalk(s, root, v, front);
      var k := |path| - 2;
      assert Leads(s.ram, path[k], Index(v, 3 - k), 3 - k, path[k + 1]);
      WalkDown(s.ram, path[k], v, 3 - k, path[k + 1]);
    }
  }

  /** No large page can stand in the slot that comes next on a clear path. */
  lemma ChainClear(s: Space, root: nat, v: Vpn, path: seq<nat>)
    requires Chain(s, root, v, path) && |path| <= 3 && PathClear(s.ram, root, v)
    ensures var e := Entry(s.ram, path[|path| - 1], Index(v, 4 - |path|)); Present(e) ==> !Large(e, 4 - |path|)
  {
    ChainWalk(s, root, v, path);
  }

  /** With the tables prepared, the write of the page table entry is all that is left. */
  lemma LeafSet(s0: Space, s: Space, root: nat, v: Vpn, path: seq<nat>, e: nat)
    requires Prepares(s0, s, root, v) && IsRoot(s0.tags, root) && SHARED !in s0.tags
    requires Chain(s, root, v, path) && |path| == 4 && e < TWO64 && Present(e)
    ensures path[3] in s.ram && path[3] in s.tags && s.tags[path[3]].level == 0 && s.ram.Keys == s0.ram.Keys
    ensures MapStep(s0, Space(SetEntry(s.ram, path[3], Index(v, 0), e), s.tags), root, v, e)
  {
    LeafStep(s, root, v, path, e);
    PreparedMap(s0, s, Space(SetEntry(s.ram, path[3], Index(v, 0), e), s.tags), root, v, e);
  }

  lemma LeafStep(s: Space, root: nat, v: Vpn, path: seq<nat>, e: nat)
    requires Typed(s.ram, s.tags) && Chain(s, root, v, path) && |path| == 4 && e < TWO64 && Present(e) && root != SHARED
    ensures path[3] in s.ram && path[3] in s.tags && s.tags[path[3]].level == 0
    ensures MapStep(s, Space(SetEntry(s.ram, path[3], Index(v, 0), e), s.tags), root, v, e)
  {
    hide Walk, Entry, SlotTyped, Leads, Large, RawLeaf, TablesExist;
    var pt := path[3];
    var s' := Space(SetEntry(s.ram, pt, Index(v, 0), e), s.tags);
    SetSlot(s.ram, s.tags, pt, Index(v, 0), e);
    TypedAfterLeaf(s.ram, s.tags, pt, Index(v, 0), e);
    ChainKept(s, s', root, v, path);
    LeafSeen(s', root, v, path);
    OthersAfterLeaf(s, s', root, v, pt);
    TidyAfter(s, s', pt, Index(v, 0), pt);
    SlotTopsKept(s, s', root, v, pt, Index(v, 0), 0);
  }

  /** The entry at the end of a whole chain is what the page translates to. */
  lemma LeafSeen(s: Space, root: nat, v: Vpn, path: seq<nat>)
    requires Chain(s, root, v, path) && |path| == 4
    ensures var e := Entry(s.ram, path[3], Index(v, 0));
      && TablesExist(s.ram, root, v, 3) && RawLeaf(s.ram, root, v, 3) == e
      && Walk(s.ram, root, v, 3) == PageLeaf(e) && OpenBelow(s.ram, root, v, e)
  {
    hide Walk, RawLeaf, TablesExist, Entry, Bit;
    assert Leads(s.ram, path[0], Index(v, 3), 3, path[1]);
    assert Leads(s.ram, path[1], Index(v, 2), 2, path[2]);
    assert Leads(s.ram, path[2], Index(v, 1), 1, path[3]);
    WalkDown(s.ram, path[0], v, 3, path[1]);
    WalkDown(s.ram, path[1], v, 2, path[2]);
    WalkDown(s.ram, path[2], v, 1, path[3]);
    WalkLast(s.ram, path[3], v);
  }

  lemma WalkLast(m: Ram, table: nat, v: nat)
    ensures var e := Entry(m, table, Index(v, 0));
      Walk(m, table, v, 0) == PageLeaf(e) && RawLeaf(m, table, v, 0) == e && TablesExist(m, table, v, 0)
  {
  }

  lemma PreparedMap(s0: Space, s: Space, s': Space, root: nat, v: Vpn, e: nat)
    requires Prepares(s0, s, root, v) && MapStep(s, s', root, v, e)
    ensures MapStep(s0, s', root, v, e)
  {
    hide Walk, Entry, Tidy, RawLeaf, TablesExist, OpenBelow, PageLeaf, Typed;
    forall r, w: Vpn | IsRoot(s0.tags, r)
      ensures IsRoot(s.tags, r) && Widens(Walk(s0.ram, r, w, 3), Walk(s.ram, r, w, 3))
    {
    }
  }

  /** A write below the PML4, or one to the PML4 of `root` that keeps the frame, keeps the PML4 slots. */
  lemma SlotTopsKept(s: Space, s': Space, root: nat, v: Vpn, t0: nat, i0: nat, level: nat)
    requires t0 in s.tags && s.tags[t0] == TagOf(root, v, level) && level <= 3 && OnlySlot(s.ram, s'.ram, s.tags, t0, i0)
    requires i0 < 512 && (level == 3 ==> SameFrame(Entry(s.ram, t0, i0), Entry(s'.ram, t0, i0)))
    ensures TopsKept(s, s', root)
  {
  }

  lemma ChainKept(s: Space, s': Space, root: nat, v: Vpn, path: seq<nat>)
    requires Chain(s, root, v, path) && |path| == 4 && s'.tags == s.tags
    requires OnlySlot(s.ram, s'.ram, s.tags, path[3], Index(v, 0))
    ensures Chain(s', root, v, path)
  {
    forall k | 0 <= k < 3
      ensures Leads(s'.ram, path[k], Index(v, 3 - k), 3 - k, path[k + 1])
    {
      assert s.tags[path[k]].level != s.tags[path[3]].level;
    }
  }

  lemma TypedAfterLeaf(m: Ram, tags: Tags, pt: nat, i: nat, e: nat)
    requires Typed(m, tags) && pt in tags && tags[pt].level == 0 && i < 512 && e < TWO64
    ensures Typed(SetEntry(m, pt, i, e), tags)
  {
    SetSlot(m, tags, pt, i, e);
    forall t, j | t in tags && j < 512
      ensures SlotTyped(SetEntry(m, pt, i, e), tags, t, j)
    {
      assert SlotTyped(m, tags, t, j);
    }
  }

  lemma OthersAfterLeaf(s: Space, s': Space, root: nat, v: Vpn, pt: nat)
    requires Typed(s.ram, s.tags) && pt in s.tags && s.tags[pt] == TagOf(root, v, 0) && root != SHARED
    requires OnlySlot(s.ram, s'.ram, s.tags, pt, Index(v, 0))
    ensures forall r, w: Vpn :: IsRoot(s.tags, r) && !(w == v && (r == root || Upper(v))) ==> Walk(s'.ram, r, w, 3) == Walk(s.ram, r, w, 3)
  {
    forall r, w: Vpn | IsRoot(s.tags, r) && !(w == v && (r == root || Upper(v)))
      ensures Walk(s'.ram, r, w, 3) == Walk(s.ram, r, w, 3)
    {
      LeafWriteKeeps(s.ram, s'.ram, s.tags, pt, root, v, r, w);
    }
  }

  /** The entry `vmm_map_page` writes: the frame of `phys`, the given flags, and present. */
  lemma PageEntryBits(phys: nat, flags: nat)
    requires phys < TWO52 && FlagsOk(flags)
    ensures var e := PageEntry(phys, flags);
      e < TWO64 && Frame(e) == Masked(phys) && (e < TWO52 <==> flags < TWO52)
      && Present(e) && (User(e) <==> User(flags)) && (Writable(e) <==> Writable(flags))
  {
    FlagBits();
    AlignedBits(Masked(phys));
    OrFlags(PageBase(phys), flags);
    OrFlags(Or(PageBase(phys), flags), PTE_PRESENT);
  }

  // ----- the entry, bit by bit

  lemma PageBaseBit(x: nat, k: nat)
    ensures Bit(PageBase(x), k) <==> k >= 12 && Bit(x, k)
  {
    if k >= 12 {
      ShiftSum(PageBase(x), 12, k - 12);
      ShiftSum(x, 12, k - 12);
      Shift12(PageBase(x));
      Shift12(x);
    } else {
      BitIs(PageBase(x), k);
      Pow2Sum(k, 12 - k);
      Pow2Twelve();
      LowDigit(x / 4096, Pow2(k), Pow2(12 - k), 12 - k);
    }
  }

  lemma Pow2Twelve()
    ensures Pow2(12) == 4096
  {
    assert Pow2(4) == 16;
    Pow2Sum(4, 4);
    Pow2Sum(8, 4);
  }

  /** A multiple of a higher power of two has a zero digit. */
  lemma LowDigit(q: nat, p: nat, r: nat, n: nat)
    requires p > 0 && p * r == 4096 && r == Pow2(n) && n > 0
    ensures q * 4096 / p % 2 == 0
  {
    var h := Pow2(n - 1);
    assert r == 2 * h;
    assert q * 4096 == p * (2 * (q * h)) by { Regroup4(q, p, h); }
    ModUnique(q * 4096, p, 2 * (q * h), 0);
  }

  lemma Regroup4(q: nat, p: nat, h: nat)
    requires p * (2 * h) == 4096
    ensures q * 4096 == p * (2 * (q * h))
  {
    assert q * (p * (2 * h)) == p * (2 * (q * h));
  }

  lemma {:induction false} ShiftSum(a: nat, m: nat, n: nat)
    ensures Shift(a, m + n) == Shift(Shift(a, m), n)
    decreases m
  {
    if m > 0 { ShiftSum(a / 2, m - 1, n); }
  }

  lemma {:induction false} ShiftZero(n: nat)
    ensures Shift(0, n) == 0
  {
    if n > 0 { ShiftZero(n - 1); }
  }

  lemma SmallBits(k: nat)
    ensures (Bit(1, k) <==> k == 0) && (Bit(2, k) <==> k == 1) && (Bit(4, k) <==> k == 2)
  {
    if k >= 3 {
      ShiftSum(1, 3, k - 3);
      ShiftSum(2, 3, k - 3);
      ShiftSum(4, 3, k - 3);
      ShiftZero(k - 3);
      assert Shift(1, 3) == 0 && Shift(2, 3) == 0 && Shift(4, 3) == 0;
    }
  }

  lemma NoHighBit(a: nat, k: nat)
    requires a < TWO52 && k >= 52
    ensures !Bit(a, k)
  {
    hide Shift;
    Pow2Frames();
    ShiftSum(a, 52, k - 52);
    ShiftIs(a, 52);
    ShiftZero(k - 52);
  }

  /** The entry a map writes, bit by bit: present, the given flags, and the address from bit 12 on. */
  lemma PageEntryBit(phys: nat, flags: nat, k: nat)
    ensures Bit(PageEntry(phys, flags), k) <==> k == 0 || Bit(flags, k) || (k >= 12 && Bit(phys, k))
  {
    hide Or, PageBase, Bit;
    OrBit(Or(PageBase(phys), flags), PTE_PRESENT, k);
    OrBit(PageBase(phys), flags, k);
    PageBaseBit(phys, k);
    SmallBits(k);
  }

  /** The entry of a new table: present, writable, user, and the address. */
  lemma NewTableBit(frame: nat, k: nat)
    ensures Bit(NewTableEntry(frame * 4096), k) <==> k <= 2 || (k >= 12 && Bit(frame * 4096, k))
  {
    hide Or, Bit;
    OrBit(Or(Or(frame * 4096, PTE_PRESENT), PTE_WRITE), PTE_USER, k);
    OrBit(Or(frame * 4096, PTE_PRESENT), PTE_WRITE, k);
    OrBit(frame * 4096, PTE_PRESENT, k);
    PageBaseBit(frame * 4096, k);
    assert PageBase(frame * 4096) == frame * 4096;
    SmallBits(k);
  }

  /** An opened entry: what it was, with user and write. */
  lemma OpenedBit(e: nat, k: nat)
    ensures Bit(OpenedEntry(e), k) <==> Bit(e, k) || k == 1 || k == 2
  {
    hide Or, Bit;
    OrBit(e, Or(PTE_USER, PTE_WRITE), k);
    OrBit(PTE_USER, PTE_WRITE, k);
    SmallBits(k);
  }

  /** A page mapped with the given address and flags: a present 4 KiB entry with exactly these bits, and the user
      and write access of bits 2 and 1 of the flags. */
  ghost predicate MappedTo(l: Leaf, phys: nat, flags: nat) {
    && l.Mapped? && l.level == 0 && (l.user <==> Bit(flags, 2)) && (l.write <==> Bit(flags, 1))
    && forall k: nat :: Bit(l.entry, k) <==> k == 0 || Bit(flags, k) || (k >= 12 && Bit(phys, k))
  }

  lemma LeafMappedTo(phys: nat, flags: nat)
    requires phys < TWO52 && FlagsOk(flags)
    ensures MappedTo(PageLeaf(PageEntry(phys, flags)), phys, flags)
  {
    hide PageEntry, Bit;
    PageEntryBits(phys, flags);
    forall k: nat
      ensures Bit(PageEntry(phys, flags), k) <==> k == 0 || Bit(flags, k) || (k >= 12 && Bit(phys, k))
    {
      PageEntryBit(phys, flags, k);
    }
    PageEntryBit(phys, flags, 1);
    PageEntryBit(phys, flags, 2);
  }

  lemma StepLeaf(s: Space, s': Space, root: nat, v: Vpn, e: nat)
    requires MapStep(s, s', root, v, e)
    ensures Walk(s'.ram, root, v, 3) == PageLeaf(e)
  {
  }

  // ----- writing one page table entry of an existing path

  /** The page table that holds the entry of `v`, following entries without looking at their present bits. */
  function LeafTable(m: Ram, table: nat, v: nat, level: nat): nat
    decreases level
  {
    if level == 0 then table else LeafTable(m, Masked(Entry(m, table, Index(v, level))), v, level - 1)
  }

  /** Where the tables exist, the page table found that way is the one that serves the page. */
  lemma {:induction false} LeafTableTyped(s: Space, root: nat, v: Vpn, t: nat, level: nat)
    requires Typed(s.ram, s.tags) && level <= 3 && t in s.tags && s.tags[t] == TagOf(root, v, level)
    requires TablesExist(s.ram, t, v, level)
    ensures var pt := LeafTable(s.ram, t, v, level);
      pt in s.tags && s.tags[pt] == TagOf(root, v, 0) && RawLeaf(s.ram, t, v, level) == Entry(s.ram, pt, Index(v, 0))
    decreases level
  {
    hide Entry, Bit, Frame, Masked, Huge;
    if level > 0 {
      MaskedIsFrame(Entry(s.ram, t, Index(v, level)));
      assert SlotTyped(s.ram, s.tags, t, Index(v, level));
      ChildTag(root, v, level);
      LeafTableTyped(s, root, v, Frame(Entry(s.ram, t, Index(v, level))), level - 1);
    }
  }

  /** A write to that page table changes the raw entry of the page and none of the tables above it. */
  lemma {:induction false} LeafTableSet(s: Space, m': Ram, root: nat, v: Vpn, t: nat, level: nat, pt: nat)
    requires Typed(s.ram, s.tags) && level <= 3 && t in s.tags && s.tags[t] == TagOf(root, v, level)
    requires TablesExist(s.ram, t, v, level) && pt == LeafTable(s.ram, t, v, level)
    requires pt in s.tags && s.tags[pt].level == 0 && OnlySlot(s.ram, m', s.tags, pt, Index(v, 0))
    ensures TablesExist(m', t, v, level) && RawLeaf(m', t, v, level) == Entry(m', pt, Index(v, 0))
    decreases level
  {
    hide Entry, Bit, Frame, Masked, Huge;
    if level > 0 {
      MaskedIsFrame(Entry(s.ram, t, Index(v, level)));
      assert SlotTyped(s.ram, s.tags, t, Index(v, level));
      ChildTag(root, v, level);
      LeafTableSet(s, m', root, v, Frame(Entry(s.ram, t, Index(v, level))), level - 1, pt);
    }
  }

  /** Writing a page table entry leaves every table in place. */
  lemma {:induction false} TablesKept(s: Space, m': Ram, root: nat, v: Vpn, t: nat, level: nat, pt: nat, i: nat)
    requires Typed(s.ram, s.tags) && level <= 3 && t in s.tags && s.tags[t] == TagOf(root, v, level)
    requires TablesExist(s.ram, t, v, level)
    requires pt in s.tags && s.tags[pt].level == 0 && OnlySlot(s.ram, m', s.tags, pt, i)
    ensures TablesExist(m', t, v, level)
    decreases level
  {
    if level > 0 {
      assert SlotTyped(s.ram, s.tags, t, Index(v, level));
      ChildTag(root, v, level);
      TablesKept(s, m', root, v, Frame(Entry(s.ram, t, Index(v, level))), level - 1, pt, i);
    }
  }

  /** Page `v` of `root` loses its entry; every other translation stays exactly as it was. */
  ghost predicate UnmapStep(s: Space, s': Space, root: nat, v: Vpn) {
    && Typed(s'.ram, s'.tags) && Grows(s, s') && s'.tags == s.tags
    && TablesExist(s'.ram, root, v, 3) && RawLeaf(s'.ram, root, v, 3) == 0
    && Walk(s'.ram, root, v, 3) == Unmapped && TidyKept(s, s', 0) && TopsKept(s, s', root)
    && (forall r, w: Vpn :: IsRoot(s.tags, r) && TablesExist(s.ram, r, w, 3) ==> TablesExist(s'.ram, r, w, 3))
    && (forall r, w: Vpn :: IsRoot(s.tags, r) && !(w == v && (r == root || Upper(v))) ==> Walk(s'.ram, r, w, 3) == Walk(s.ram, r, w, 3))
  }

  lemma LeafCleared(s: Space, root: nat, v: Vpn)
    requires Typed(s.ram, s.tags) && IsRoot(s.tags, root) && TablesExist(s.ram, root, v, 3)
    ensures var pt := LeafTable(s.ram, root, v, 3);
      pt in s.ram && UnmapStep(s, Space(SetEntry(s.ram, pt, Index(v, 0), 0), s.tags), root, v)
  {
    hide Walk, RawLeaf, LeafTable, TablesExist;
    var pt := LeafTable(s.ram, root, v, 3);
    RootTagOf(root, v);
    LeafTableTyped(s, root, v, root, 3);
    var s' := Space(SetEntry(s.ram, pt, Index(v, 0), 0), s.tags);
    SetSlot(s.ram, s.tags, pt, Index(v, 0), 0);
    TypedAfterLeaf(s.ram, s.tags, pt, Index(v, 0), 0);
    LeafTableSet(s, s'.ram, root, v, root, 3, pt);
    TypedPlain(s'.ram, s'.tags, root, v, root, 3);
    RawLeafDecides(s'.ram, root, v, 3);
    TidyAfter(s, s', pt, Index(v, 0), pt);
    SlotTopsKept(s, s', root, v, pt, Index(v, 0), 0);
    OthersAfterLeaf(s, s', root, v, pt);
    forall r, w: Vpn | IsRoot(s.tags, r) && TablesExist(s.ram, r, w, 3)
      ensures TablesExist(s'.ram, r, w, 3)
    {
      RootTagOf(r, w);
      TablesKept(s, s'.ram, r, w, r, 3, pt, Index(v, 0));
    }
  }

  // ----- a new root that shares the upper half

  /** No table has changed, and the new one holds the upper slots of `root`. */
  ghost predicate SlotsCopied(s: Space, s': Space, root: nat, user: nat) {
    && (forall t, i :: t in s.tags && i < 512 ==> Entry(s'.ram, t, i) == Entry(s.ram, t, i))
    && (forall i :: 0 <= i < 512 ==> Entry(s'.ram, user, i) == if i < 256 then 0 else Entry(s.ram, root, i))
  }

  /** `user` has become a root with an empty lower half and the upper half of `root`. */
  ghost predicate RootStep(s: Space, s': Space, root: nat, user: nat) {
    && Typed(s'.ram, s'.tags) && Grows(s, s')
    && user !in s.tags && s'.tags == s.tags[user := RootTag(user)]
    && TidyKept(s, s', 0) && SlotsCopied(s, s', root, user)
    && (forall r, v: Vpn :: IsRoot(s.tags, r) ==> Walk(s'.ram, r, v, 3) == Walk(s.ram, r, v, 3))
    && (forall v: Vpn :: Walk(s'.ram, user, v, 3) == if Upper(v) then Walk(s.ram, root, v, 3) else Unmapped)
  }

  lemma SameTablesSameWalk(s: Space, m': Ram, root: nat, v: Vpn, t: nat, level: nat)
    requires Typed(s.ram, s.tags) && level <= 3 && t in s.tags && s.tags[t] == TagOf(root, v, level)
    requires forall f :: f in s.tags ==> f in m' && m'[f] == s.ram[f]
    ensures Walk(m', t, v, level) == Walk(s.ram, t, v, level)
  {
    Unvisited(s.ram, m', s.tags, t, 512, root, v, t, level);
  }

  lemma RootAdded(s: Space, m': Ram, root: nat, user: nat)
    requires Typed(s.ram, s.tags) && IsRoot(s.tags, root) && user !in s.tags && user != SHARED && user in s.ram
    requires m'.Keys == s.ram.Keys && forall f :: f in s.ram && f != user ==> m'[f] == s.ram[f]
    requires forall i :: 0 <= i < 512 ==> Entry(m', user, i) == if i < 256 then 0 else Entry(s.ram, root, i)
    ensures RootStep(s, Space(m', s.tags[user := RootTag(user)]), root, user)
  {
    var s' := Space(m', s.tags[user := RootTag(user)]);
    forall t, i | t in s'.tags && i < 512
      ensures SlotTyped(m', s'.tags, t, i)
    {
      if t == user {
        assert SlotTyped(s.ram, s.tags, root, i);
        assert i >= 256 ==> Child(RootTag(user), i) == Child(RootTag(root), i);
      } else {
        assert SlotTyped(s.ram, s.tags, t, i);
      }
    }
    forall t, i | t in s'.tags && i < 512
      ensures Tidy(s) ==> TidySlot(m', t, i)
      ensures Low(s) ==> LowSlot(m', t, i)
    {
      assert Tidy(s) ==> TidySlot(s.ram, if t == user then root else t, i);
      assert Low(s) ==> LowSlot(s.ram, if t == user then root else t, i);
    }
    forall r, v: Vpn | IsRoot(s.tags, r)
      ensures Walk(m', r, v, 3) == Walk(s.ram, r, v, 3)
    {
      RootTagOf(r, v);
      SameTablesSameWalk(s, m', r, v, r, 3);
    }
    forall v: Vpn
      ensures Walk(m', user, v, 3) == if Upper(v) then Walk(s.ram, root, v, 3) else Unmapped
    {
      var e := Entry(s.ram, root, Index(v, 3));
      if Upper(v) && Present(e) {
        RootTagOf(root, v);
        ChildTag(root, v, 3);
        assert SlotTyped(s.ram, s.tags, root, Index(v, 3));
        SameTablesSameWalk(s, m', root, v, Frame(e), 2);
      }
    }
  }
}
