/** Physical memory and 4-level paging: the translation the processor computes from a root table
    (Intel SDM Volume 3A, sections 4.5 and 4.6), and what single writes to table entries do to it. */
module Paging {
  import opened Bytes

  const PTE_PRESENT := 1
  const PTE_WRITE := 2
  const PTE_USER := 4

  /** The number of virtual pages a 48-bit address can name. */
  const PAGES := 0x10_0000_0000

  type Vpn = v: nat | v < PAGES

  /** Physical memory: the 4096 bytes of every frame that exists, by frame number. */
  type Ram = m: map<nat, seq<byte>> | forall f :: f in m ==> |m[f]| == 4096 witness map[]

  // ----- entries

  function Entry(m: Ram, table: nat, i: nat): nat {
    if table in m && i < 512 then FromLe(m[table][8 * i..8 * i + 8]) else 0
  }

  function SetEntry(m: Ram, table: nat, i: nat, e: nat): (m': Ram)
    requires table in m && i < 512
  {
    m[table := Splice(m[table], 8 * i, ToLe(e, 8))]
  }

  lemma EntryOfSetEntry(m: Ram, table: nat, i: nat, e: nat, t: nat, j: nat)
    requires table in m && i < 512 && e < TWO64
    ensures Entry(SetEntry(m, table, i, e), t, j) == if t == table && j == i then e else Entry(m, t, j)
  {
    hide Splice, FromLe, ToLe, Pow256;
    if t == table && j < 512 {
      SplicedWord(m[table], 8 * i, ToLe(e, 8), 8 * j);
      if j == i {
        LeRoundTrip(e, 8);
        Pow256Word();
      }
    }
  }

  function Splice(page: seq<byte>, at: nat, word: seq<byte>): seq<byte>
    requires at + |word| <= |page|
  {
    page[..at] + word + page[at + |word|..]
  }

  lemma SplicedWord(page: seq<byte>, at: nat, word: seq<byte>, from: nat)
    requires at + |word| <= |page| && from + |word| <= |page|
    requires from == at || from + |word| <= at || at + |word| <= from
    ensures Splice(page, at, word)[from..from + |word|] == if from == at then word else page[from..from + |word|]
  {
    var s := Splice(page, at, word);
    assert forall k :: 0 <= k < |page| ==> s[k] == if at <= k < at + |word| then word[k - at] else page[k];
    if from == at {
      assert s[from..from + |word|] == word;
    } else {
      assert s[from..from + |word|] == page[from..from + |word|];
    }
  }

  lemma EntryBound(m: Ram, table: nat, i: nat)
    ensures Entry(m, table, i) < TWO64
  {
    if table in m && i < 512 {
      FromLeBound(m[table][8 * i..8 * i + 8]);
      Pow256Word();
    }
  }

  predicate Present(e: nat) { Bit(e, 0) }
  predicate Writable(e: nat) { Bit(e, 1) }
  predicate User(e: nat) { Bit(e, 2) }
  predicate Huge(e: nat) { Bit(e, 7) }

  const TWO52 := 0x10_0000_0000_0000

  /** The number of frames a physical address of 52 bits can name. */
  const FRAMES := 0x100_0000_0000

  /** The frame the processor takes from an entry: bits 12 to 51. */
  function Frame(e: nat): nat { e / 4096 % FRAMES }

  /** The frame of `e & ~0xFFF`, which the kernel takes: bits 12 to 63. */
  function Masked(e: nat): nat { e / 4096 }

  /** `x & ~0xFFF`. */
  function PageBase(x: nat): nat { x / 4096 * 4096 }

  /** Both agree exactly on entries without bits from 52 up. */
  lemma MaskedIsFrame(e: nat)
    ensures Masked(e) == Frame(e) <==> e < TWO52
  {
  }

  /** Flags outside the address bits 12 to 51. */
  predicate FlagsOk(flags: nat) { flags < TWO64 && Frame(flags) == 0 }

  /** Such flags leave the frame of an entry alone. */
  lemma OrFrame(e: nat, flags: nat)
    requires Frame(flags) == 0
    ensures Frame(Or(e, flags)) == Frame(e)
  {
    OrShift(e, flags, 12);
    Shift12(e);
    Shift12(flags);
    Shift12(Or(e, flags));
    Pow2Frames();
    OrLow(e / 4096, flags / 4096, 40);
    OrZero(e / 4096 % FRAMES);
  }

  lemma OrZero(a: nat)
    ensures Or(a, 0) == a
  {
  }

  lemma Pow2Frames()
    ensures Pow2(40) == FRAMES && Pow2(52) == TWO52
  {
    assert Pow2(4) == 16;
    Pow2Sum(4, 4);
    Pow2Sum(8, 8);
    Pow2Sum(16, 16);
    Pow2Sum(8, 32);
    Pow2Sum(8, 4);
    Pow2Sum(40, 12);
  }

  /** The bits of the flag constants the table code or-s into entries. */
  lemma FlagBits()
    ensures Bit(PTE_PRESENT, 0) && !Bit(PTE_PRESENT, 1) && !Bit(PTE_PRESENT, 2) && !Bit(PTE_PRESENT, 7)
    ensures !Bit(PTE_WRITE, 0) && Bit(PTE_WRITE, 1) && !Bit(PTE_WRITE, 2) && !Bit(PTE_WRITE, 7)
    ensures !Bit(PTE_USER, 0) && !Bit(PTE_USER, 1) && Bit(PTE_USER, 2) && !Bit(PTE_USER, 7)
  {
    Shift7(PTE_PRESENT);
    Shift7(PTE_WRITE);
    Shift7(PTE_USER);
  }

  /** Or-ing in flag bits only adds those bits. */
  lemma OrFlags(e: nat, flags: nat)
    requires FlagsOk(flags) && e < TWO64
    ensures Frame(Or(e, flags)) == Frame(e) && Or(e, flags) < TWO64
    ensures Or(e, flags) < TWO52 <==> e < TWO52 && flags < TWO52
    ensures Present(Or(e, flags)) <==> Present(e) || Present(flags)
    ensures Writable(Or(e, flags)) <==> Writable(e) || Writable(flags)
    ensures User(Or(e, flags)) <==> User(e) || User(flags)
    ensures Huge(Or(e, flags)) <==> Huge(e) || Huge(flags)
  {
    hide Or, Frame, Bit;
    OrFrame(e, flags);
    OrWord(e, flags);
    OrAbove(e, flags);
    if e < TWO52 && flags < TWO52 {
      Pow2Frames();
      OrBelow(e, flags, 52);
    }
    OrBit(e, flags, 0);
    OrBit(e, flags, 1);
    OrBit(e, flags, 2);
    OrBit(e, flags, 7);
  }

  /** The entry for a freshly allocated table. */
  function NewTableEntry(page: nat): nat {
    Or(Or(Or(page, PTE_PRESENT), PTE_WRITE), PTE_USER)
  }

  lemma NewTableEntryBits(frame: nat)
    requires frame < FRAMES
    ensures var e := NewTableEntry(frame * 4096);
      Frame(e) == frame && Present(e) && User(e) && Writable(e) && !Huge(e) && e < TWO52
  {
    var page := frame * 4096;
    FlagBits();
    AlignedBits(frame);
    OrFlags(page, PTE_PRESENT);
    OrFlags(Or(page, PTE_PRESENT), PTE_WRITE);
    OrFlags(Or(Or(page, PTE_PRESENT), PTE_WRITE), PTE_USER);
  }

  /** An existing entry after `|= PTE_USER | PTE_WRITE`. */
  function OpenedEntry(e: nat): nat {
    Or(e, Or(PTE_USER, PTE_WRITE))
  }

  lemma OpenedEntryBits(e: nat)
    requires e < TWO64
    ensures var e' := OpenedEntry(e);
      Frame(e') == Frame(e) && (Present(e') <==> Present(e)) && User(e') && Writable(e') && (Huge(e') <==> Huge(e)) && e' < TWO64 && (e' < TWO52 <==> e < TWO52)
  {
    FlagBits();
    OrFlags(PTE_USER, PTE_WRITE);
    assert Or(PTE_USER, PTE_WRITE) < 4096 by {
      assert Or(4, 2) == 2 * Or(2, 1) == 2 * (1 + 2 * Or(1, 0));
    }
    OrFlags(e, Or(PTE_USER, PTE_WRITE));
  }

  /** A page-aligned address has no flag bits. */
  lemma AlignedBits(frame: nat)
    ensures !Bit(frame * 4096, 0) && !Bit(frame * 4096, 1) && !Bit(frame * 4096, 2) && !Bit(frame * 4096, 7)
    ensures Masked(frame * 4096) == frame && (frame < FRAMES ==> Frame(frame * 4096) == frame)
  {
    Shift7(frame * 4096);
    assert frame * 4096 / 128 == frame * 32;
    assert frame * 4096 / 2 == frame * 2048 && frame * 4096 / 4 == frame * 1024;
    assert Shift(frame * 4096, 1) == Shift(frame * 2048, 0);
    Shift2(frame * 4096, 0);
  }

  // ----- the translation

  /** The number of pages one entry of a table at this level spans: level 0 is a page table, level 3 the PML4. */
  function Span(level: nat): (n: nat)
    ensures n > 0
  {
    if level == 0 then 1 else if level == 1 then 512 else if level == 2 then 0x4_0000 else 0x800_0000
  }

  /** The nine address bits of virtual page `v` that index a table at `level`. */
  function Index(v: nat, level: nat): (i: nat)
    ensures i < 512
  {
    v / Span(level) % 512
  }

  /** The address bits above those. */
  function Prefix(v: nat, level: nat): nat { v / Span(level) / 512 }

  predicate Upper(v: nat) { Index(v, 3) >= 256 }

  /** A present entry above level 0 that maps a large page instead of pointing to a table. */
  predicate Large(e: nat, level: nat) { 0 < level < 3 && Huge(e) }

  /** What a page translates to: the leaf entry, its level, and the AND over all levels of the
      user and write bits. */
  datatype Leaf = Unmapped | Mapped(entry: nat, level: nat, user: bool, write: bool) {
    function Under(e: nat): Leaf {
      if Unmapped? then Unmapped else Mapped(entry, level, user && User(e), write && Writable(e))
    }
  }

  function Walk(m: Ram, table: nat, v: nat, level: nat): Leaf
    decreases level
  {
    var e := Entry(m, table, Index(v, level));
    if !Present(e) then Unmapped
    else if level == 0 || Large(e, level) then Mapped(e, level, User(e), Writable(e))
    else Walk(m, Frame(e), v, level - 1).Under(e)
  }

  /** The same leaf, reached with at least the permissions it was reached with before. */
  predicate Widens(l: Leaf, l': Leaf) {
    if l.Unmapped? then l'.Unmapped?
    else l'.Mapped? && l'.entry == l.entry && l'.level == l.level && (l.user ==> l'.user) && (l.write ==> l'.write)
  }

  /** Every table on the way to the page exists, so that it has a slot in a page table. */
  predicate TablesExist(m: Ram, table: nat, v: nat, level: nat)
    decreases level
  {
    level == 0 ||
    var e := Entry(m, table, Index(v, level));
    Present(e) && !Large(e, level) && TablesExist(m, Frame(e), v, level - 1)
  }

  /** How many tables on the way to the page do not exist: the level of the first empty slot, or 0. */
  function MissingAt(m: Ram, table: nat, v: nat, level: nat): (n: nat)
    ensures n <= level
    decreases level
  {
    if level == 0 then 0
    else
      var e := Entry(m, table, Index(v, level));
      if !Present(e) then level else if Large(e, level) then 0 else MissingAt(m, Frame(e), v, level - 1)
  }

  /** The page table entry of `v`, following entries without looking at their present bits. */
  function RawLeaf(m: Ram, table: nat, v: nat, level: nat): nat
    decreases level
  {
    var e := Entry(m, table, Index(v, level));
    if level == 0 then e else RawLeaf(m, Masked(e), v, level - 1)
  }

  // ----- typed table trees

  /** The part of the address space a table serves: its level, the address bits above its own, and
      the root it belongs to. Tables below the upper half of a PML4 belong to no single root. */
  datatype Tag = Tag(space: nat, level: nat, prefix: nat)

  const SHARED := 0

  function RootTag(root: nat): Tag { Tag(root, 3, 0) }

  function Child(t: Tag, i: nat): Tag
    requires t.level > 0
  {
    Tag(if t.level == 3 && i >= 256 then SHARED else t.space, t.level - 1, t.prefix * 512 + i)
  }

  /** The tag of the table that a walk for `v` from `root` reads at `level`. */
  function TagOf(root: nat, v: nat, level: nat): Tag {
    Tag(if level < 3 && Upper(v) then SHARED else root, level, Prefix(v, level))
  }

  type Tags = map<nat, Tag>

  ghost predicate SlotTyped(m: Ram, tags: Tags, t: nat, i: nat)
    requires t in tags
  {
    var e := Entry(m, t, i);
    (tags[t].level > 0 && Present(e) && !Large(e, tags[t].level)) ==>
      e < TWO52 && Frame(e) in tags && tags[Frame(e)] == Child(tags[t], i)
  }

  /** Every table serves one place only: present entries lead to tables tagged for that place. */
  ghost predicate Typed(m: Ram, tags: Tags) {
    && SHARED !in tags
    && (forall t :: t in tags ==> t in m && tags[t].level <= 3)
    && (forall t, i :: t in tags && i < 512 ==> SlotTyped(m, tags, t, i))
  }

  predicate IsRoot(tags: Tags, r: nat) { r in tags && tags[r] == RootTag(r) }

  lemma ChildTag(root: nat, v: nat, level: nat)
    requires 0 < level <= 3
    ensures Child(TagOf(root, v, level), Index(v, level)) == TagOf(root, v, level - 1)
  {
  }

  lemma RootTagOf(root: nat, v: Vpn)
    ensures TagOf(root, v, 3) == RootTag(root)
  {
  }

  /** A page table slot serves one page of one root, or of all roots in the upper half. */
  lemma SlotServesOnePage(r: nat, v: nat, r': nat, v': nat)
    requires TagOf(r, v, 0) == TagOf(r', v', 0) && Index(v, 0) == Index(v', 0)
    requires r != SHARED && r' != SHARED
    ensures v == v' && (r == r' || Upper(v))
  {
  }

  // ----- what a write to one slot does to walks

  /** `m'` agrees with `m` on every slot of the tables but `(t0, i0)`. */
  ghost predicate OnlySlot(m: Ram, m': Ram, tags: Tags, t0: nat, i0: nat) {
    forall t, i :: t in tags && i < 512 && !(t == t0 && i == i0) ==> Entry(m', t, i) == Entry(m, t, i)
  }

  predicate Visits(tag: Tag, i: nat, r: nat, v: nat) {
    tag.level <= 3 && tag == TagOf(r, v, tag.level) && i == Index(v, tag.level)
  }

  lemma {:induction false} Unvisited(m: Ram, m': Ram, tags: Tags, t0: nat, i0: nat, r: nat, v: nat, t: nat, level: nat)
    requires Typed(m, tags) && OnlySlot(m, m', tags, t0, i0) && t0 in tags
    requires level <= 3 && t in tags && tags[t] == TagOf(r, v, level)
    requires !Visits(tags[t0], i0, r, v)
    ensures Walk(m', t, v, level) == Walk(m, t, v, level)
    decreases level
  {
    var i := Index(v, level);
    var e := Entry(m, t, i);
    assert Entry(m', t, i) == e;
    if Present(e) && level > 0 && !Large(e, level) {
      assert SlotTyped(m, tags, t, i);
      ChildTag(r, v, level);
      Unvisited(m, m', tags, t0, i0, r, v, Frame(e), level - 1);
    }
  }

  ghost predicate Blank(m: Ram, t: nat) {
    forall i :: i < 512 ==> Entry(m, t, i) == 0
  }

  /** The two ways `ensure_table` changes a slot: a blank table where there was none, or more
      permission on the table that is there. */
  ghost predicate Ensured(m: Ram, m': Ram, e: nat, e': nat, level: nat) {
    && Present(e') && User(e') && Writable(e') && !Large(e', level)
    && if Present(e) then !Large(e, level) && Frame(e') == Frame(e) else Blank(m', Frame(e'))
  }

  lemma {:induction false} EnsuredKeeps(m: Ram, m': Ram, tags: Tags, t0: nat, i0: nat, r: nat, v: nat, t: nat, level: nat)
    requires Typed(m, tags) && OnlySlot(m, m', tags, t0, i0) && t0 in tags && i0 < 512 && tags[t0].level > 0
    requires Ensured(m, m', Entry(m, t0, i0), Entry(m', t0, i0), tags[t0].level)
    requires level <= 3 && t in tags && tags[t] == TagOf(r, v, level)
    ensures Widens(Walk(m, t, v, level), Walk(m', t, v, level))
    decreases level
  {
    var i := Index(v, level);
    var e, e' := Entry(m, t, i), Entry(m', t, i);
    assert SlotTyped(m, tags, t, i);
    if Present(e) && level > 0 && !Large(e, level) {
      ChildTag(r, v, level);
      EnsuredKeeps(m, m', tags, t0, i0, r, v, Frame(e), level - 1);
      assert Frame(e') == Frame(e) && Present(e') && !Large(e', level);
    } else if t == t0 && i == i0 {
      assert Entry(m', Frame(e'), Index(v, level - 1)) == 0;
    }
  }

  /** Writing a page table slot leaves every walk alone that does not end there. */
  lemma LeafWriteKeeps(m: Ram, m': Ram, tags: Tags, pt: nat, root: nat, v: Vpn, r: nat, w: Vpn)
    requires Typed(m, tags) && pt in tags && tags[pt] == TagOf(root, v, 0) && root != SHARED
    requires OnlySlot(m, m', tags, pt, Index(v, 0))
    requires IsRoot(tags, r) && !(w == v && (r == root || Upper(v)))
    ensures Walk(m', r, w, 3) == Walk(m, r, w, 3)
  {
    RootTagOf(r, w);
    if Visits(tags[pt], Index(v, 0), r, w) {
      SlotServesOnePage(r, w, root, v);
    }
    Unvisited(m, m', tags, pt, Index(v, 0), r, w, r, 3);
  }

  // ----- walked paths

  /** Slot `i` leads to table `child` with every permission. */
  predicate Leads(m: Ram, table: nat, i: nat, level: nat, child: nat) {
    var e := Entry(m, table, i);
    Present(e) && User(e) && Writable(e) && !Large(e, level) && e < TWO52 && Frame(e) == child
  }

  /** What a page table entry translates its page to. */
  function PageLeaf(e: nat): Leaf {
    if Present(e) then Mapped(e, 0, User(e), Writable(e)) else Unmapped
  }

  /** No large page covers `v`. */
  predicate PathClear(m: Ram, root: nat, v: nat) {
    var l := Walk(m, root, v, 3);
    l.Mapped? ==> l.level == 0
  }

  lemma WalkDown(m: Ram, table: nat, v: nat, level: nat, child: nat)
    requires 0 < level && Leads(m, table, Index(v, level), level, child)
    ensures Walk(m, table, v, level) == Walk(m, child, v, level - 1)
    ensures TablesExist(m, table, v, level) <==> TablesExist(m, child, v, level - 1)
    ensures RawLeaf(m, table, v, level) == RawLeaf(m, child, v, level - 1)
  {
  }

  /** No entry that leads to a table on the way to the page has bits from 52 up. */
  predicate PlainPath(m: Ram, table: nat, v: nat, level: nat)
    decreases level
  {
    var e := Entry(m, table, Index(v, level));
    level > 0 && Present(e) && !Large(e, level) ==> e < TWO52 && PlainPath(m, Frame(e), v, level - 1)
  }

  lemma {:induction false} TypedPlain(m: Ram, tags: Tags, root: nat, v: nat, t: nat, level: nat)
    requires Typed(m, tags) && level <= 3 && t in tags && tags[t] == TagOf(root, v, level)
    ensures PlainPath(m, t, v, level)
    decreases level
  {
    var e := Entry(m, t, Index(v, level));
    if level > 0 && Present(e) && !Large(e, level) {
      assert SlotTyped(m, tags, t, Index(v, level));
      ChildTag(root, v, level);
      TypedPlain(m, tags, root, v, Frame(e), level - 1);
    }
  }

  /** Once the tables exist, the raw page table entry decides the translation. */
  lemma {:induction false} RawLeafDecides(m: Ram, table: nat, v: nat, level: nat)
    requires TablesExist(m, table, v, level) && PlainPath(m, table, v, level)
    ensures Walk(m, table, v, level).Unmapped? <==> !Present(RawLeaf(m, table, v, level))
    ensures Walk(m, table, v, level).Mapped? ==> Walk(m, table, v, level).entry == RawLeaf(m, table, v, level)
    decreases level
  {
    if level > 0 {
      MaskedIsFrame(Entry(m, table, Index(v, level)));
      RawLeafDecides(m, Frame(Entry(m, table, Index(v, level))), v, level - 1);
    }
  }
}
