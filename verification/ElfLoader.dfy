/** The executable loader: maps every loadable segment of an ELF file page by page under the current
    root, zeroes each page and copies the part of the file that falls into it. */
module ElfLoader {
  import opened Bytes
  import opened Elf
  import opened Paging
  import opened Mapping
  import opened MappingRuns
  import opened Vmm
  import Frames = Pmm

  /** User addresses end at the middle of the 48-bit space. */
  const USER_END := 0x8000_0000_0000

  // ----- segments

  predicate PfW(ph: Phdr) { Bit(ph.flags, 1) }

  function FirstPage(ph: Phdr): nat { ph.vaddr / 4096 }

  function NumPages(ph: Phdr): nat { (ph.memsz + ph.vaddr % 4096 + 4095) / 4096 }

  /** Page `v` is one of the first `n` pages of the segment. */
  predicate Among(ph: Phdr, n: nat, v: nat) { FirstPage(ph) <= v < FirstPage(ph) + n }

  predicate InSegment(ph: Phdr, v: nat) { Among(ph, NumPages(ph), v) }

  /** The byte a program must see at address `x` of a page of the segment. */
  function SegmentByte(file: seq<byte>, ph: Phdr, x: nat): byte
    requires ph.offset + ph.filesz <= |file|
  {
    if ph.vaddr <= x < ph.vaddr + ph.filesz then file[ph.offset + (x - ph.vaddr)] else 0
  }

  predicate SegmentOk(file: seq<byte>, ph: Phdr) {
    ph.filesz <= ph.memsz && ph.offset + ph.filesz <= |file| && ph.vaddr + ph.memsz <= USER_END
  }

  /** The 4096 bytes a program must find in page `v`. */
  ghost predicate IsPageImage(page: seq<byte>, file: seq<byte>, ph: Phdr, v: nat)
    requires SegmentOk(file, ph)
  {
    |page| == 4096 && forall b :: 0 <= b < 4096 ==> page[b] == SegmentByte(file, ph, v * 4096 + b)
  }

  // ----- pages that are loaded

  /** What the processor reads at address `x` under `root`. */
  function ReadByte(m: Ram, root: nat, x: nat): Option<byte> {
    var l := Walk(m, root, VpnOf(x), 3);
    if l.Mapped? && l.level == 0 && Frame(l.entry) in m then Some(m[Frame(l.entry)][x % 4096]) else None
  }

  /** Page `v` holds its part of the segment in a frame of its own, for user code to read, and to
      write exactly if the segment is writable. */
  ghost predicate PageLoaded(s: Space, free: set<nat>, root: nat, file: seq<byte>, ph: Phdr, v: Vpn)
    requires SegmentOk(file, ph)
  {
    var l := Walk(s.ram, root, v, 3);
    && l.Mapped? && l == PageLeaf(l.entry) && l.user && l.write == PfW(ph)
    && l.entry == PageEntry(Frame(l.entry) * 4096, PageFlags(ph)) && Frame(l.entry) < FRAMES
    && Frame(l.entry) in s.ram && Frame(l.entry) !in s.tags && Frame(l.entry) !in free
    && IsPageImage(s.ram[Frame(l.entry)], file, ph, v)
  }

  /** Nothing but the given pages of `root`, new tables and frames that were free has changed. */
  ghost predicate LoadStep(s: Space, s': Space, free: set<nat>, root: nat, pages: set<Vpn>) {
    && s'.ram.Keys == s.ram.Keys && s.tags.Keys <= s'.tags.Keys <= s.tags.Keys + free
    && (forall t :: t in s.tags ==> s'.tags[t] == s.tags[t])
    && (forall f :: f in s.ram && f !in s'.tags && f !in free ==> s'.ram[f] == s.ram[f])
    && (forall r, w: Vpn :: IsRoot(s.tags, r) && !(w in pages && r == root) ==> Widens(Walk(s.ram, r, w, 3), Walk(s'.ram, r, w, 3)))
    && OthersKept(s, s', root)
  }

  lemma LoadNothing(s: Space, free: set<nat>, root: nat)
    ensures LoadStep(s, s, free, root, {})
  {
  }

  lemma LoadSteps(s0: Space, s1: Space, s2: Space, free0: set<nat>, free1: set<nat>, root: nat, p: set<Vpn>, q: set<Vpn>)
    requires LoadStep(s0, s1, free0, root, p) && LoadStep(s1, s2, free1, root, q) && free1 <= free0
    ensures LoadStep(s0, s2, free0, root, p + q)
  {
    forall r, w: Vpn | IsRoot(s0.tags, r)
      ensures !(w in p + q && r == root) ==> Widens(Walk(s0.ram, r, w, 3), Walk(s2.ram, r, w, 3))
      ensures r != root || Upper(w) ==> Walk(s2.ram, r, w, 3) == Walk(s0.ram, r, w, 3)
    {
      assert IsRoot(s1.tags, r);
    }
  }

  /** A loaded page survives whatever is loaded elsewhere later. */
  lemma LoadedStays(s: Space, s': Space, free: set<nat>, free': set<nat>, root: nat, pages: set<Vpn>, file: seq<byte>, ph: Phdr, v: Vpn)
    requires SegmentOk(file, ph) && PageLoaded(s, free, root, file, ph, v) && IsRoot(s.tags, root)
    requires LoadStep(s, s', free, root, pages) && v !in pages && free' <= free
    ensures PageLoaded(s', free', root, file, ph, v)
  {
    var l := Walk(s.ram, root, v, 3);
    assert Widens(l, Walk(s'.ram, root, v, 3));
    FullLeafStays(s'.ram, root, v, l.entry);
  }

  /** Bytes of a frame that is no table do not matter to any translation. */
  lemma DataWriteKeeps(s: Space, f: nat, page: seq<byte>)
    requires Typed(s.ram, s.tags) && f in s.ram && f !in s.tags && |page| == 4096
    ensures Typed(s.ram[f := page], s.tags)
    ensures forall r, w: Vpn :: IsRoot(s.tags, r) ==> Walk(s.ram[f := page], r, w, 3) == Walk(s.ram, r, w, 3)
  {
    var m': Ram := s.ram[f := page];
    forall t, i | t in s.tags && i < 512
      ensures SlotTyped(m', s.tags, t, i)
    {
      assert SlotTyped(s.ram, s.tags, t, i);
    }
    forall r, w: Vpn | IsRoot(s.tags, r)
      ensures Walk(m', r, w, 3) == Walk(s.ram, r, w, 3)
    {
      RootTagOf(r, w);
      SameTablesSameWalk(s, m', r, w, r, 3);
    }
  }

  lemma MapIsLoad(s0: Space, s1: Space, free: set<nat>, root: nat, v: Vpn, e: nat)
    requires MapStep(s0, s1, root, v, e) && !Upper(v) && s1.tags.Keys <= s0.tags.Keys + free
    ensures LoadStep(s0, s1, free, root, {v})
  {
  }

  lemma DataIsLoad(s: Space, free: set<nat>, root: nat, f: nat, page: seq<byte>)
    requires Typed(s.ram, s.tags) && f in s.ram && f !in s.tags && f in free && |page| == 4096
    ensures Typed(s.ram[f := page], s.tags) && LoadStep(s, Space(s.ram[f := page], s.tags), free, root, {})
  {
    DataWriteKeeps(s, f, page);
  }

  /** One page of a segment: a map to the free frame `f`, then the bytes of the page. */
  lemma PageStep(s0: Space, s1: Space, free: set<nat>, root: nat, v: Vpn, f: nat, page: seq<byte>, file: seq<byte>, ph: Phdr)
    requires SegmentOk(file, ph) && IsRoot(s0.tags, root) && !Upper(v)
    requires f in free && f in s1.ram && f !in s1.tags && f * 4096 < TWO52 && s1.tags.Keys <= s0.tags.Keys + free
    requires MapStep(s0, s1, root, v, PageEntry(f * 4096, PageFlags(ph)))
    requires IsPageImage(page, file, ph, v)
    ensures var s2 := Space(s1.ram[f := page], s1.tags);
      && Typed(s2.ram, s2.tags) && LoadStep(s0, s2, free, root, {v})
      && forall free' :: f !in free' ==> PageLoaded(s2, free', root, file, ph, v)
  {
    hide LoadStep, Typed, PageFlags, PageEntry, Or, Walk;
    var s2 := Space(s1.ram[f := page], s1.tags);
    MapIsLoad(s0, s1, free, root, v, PageEntry(f * 4096, PageFlags(ph)));
    DataIsLoad(s1, free, root, f, page);
    LoadSteps(s0, s1, s2, free, free, root, {v}, {});
    assert {v} + {} == {v};
    PageMapped(s0, s1, root, v, f, page, ph);
  }

  lemma PageMapped(s0: Space, s1: Space, root: nat, v: Vpn, f: nat, page: seq<byte>, ph: Phdr)
    requires IsRoot(s0.tags, root) && f in s1.ram && f !in s1.tags && f * 4096 < TWO52 && |page| == 4096
    requires MapStep(s0, s1, root, v, PageEntry(f * 4096, PageFlags(ph)))
    ensures var l := Walk(s1.ram[f := page], root, v, 3);
      l.Mapped? && l == PageLeaf(l.entry) && l.user && l.write == PfW(ph) && Frame(l.entry) == f
      && l.entry == PageEntry(f * 4096, PageFlags(ph))
  {
    hide Typed, PageFlags, PageEntry, Or, Walk;
    DataWriteKeeps(s1, f, page);
    PageFlagsBits(ph);
    PageEntryBits(f * 4096, PageFlags(ph));
  }

  /** `PTE_PRESENT | PTE_USER`, and `PTE_WRITE` for a writable segment. */
  function PageFlags(ph: Phdr): nat {
    if PfW(ph) then Or(Or(PTE_PRESENT, PTE_USER), PTE_WRITE) else Or(PTE_PRESENT, PTE_USER)
  }

  lemma PageFlagsBits(ph: Phdr)
    ensures PageFlags(ph) < 4096 && User(PageFlags(ph)) && (Writable(PageFlags(ph)) <==> PfW(ph))
  {
    FlagBits();
    OrFlags(PTE_PRESENT, PTE_USER);
    OrFlags(Or(PTE_PRESENT, PTE_USER), PTE_WRITE);
    SmallFlags();
  }

  /** Present and user, and write exactly for a writable segment. */
  lemma PageFlagsBit(ph: Phdr, k: nat)
    ensures Bit(PageFlags(ph), k) <==> k == 0 || k == 2 || (k == 1 && PfW(ph))
  {
    hide Or, Bit;
    OrBit(Or(PTE_PRESENT, PTE_USER), PTE_WRITE, k);
    OrBit(PTE_PRESENT, PTE_USER, k);
    SmallBits(k);
  }

  lemma SmallFlags()
    ensures Or(PTE_PRESENT, PTE_USER) == 5 && Or(5, PTE_WRITE) == 7
  {
    assert Or(1, 4) == 1 + 2 * Or(0, 2);
    assert Or(5, 2) == 1 + 2 * Or(2, 1) && Or(2, 1) == 1 + 2 * Or(1, 0);
  }

  // ----- the loops

  /** `virt_page[b] = 0` for a whole frame. */
  method ZeroFrame(vmm: Vmm, f: nat)
    requires f in vmm.ram
    modifies vmm`ram
    ensures exists page: seq<byte> :: |page| == 4096 && vmm.ram == old(vmm.ram)[f := page] && forall b :: 0 <= b < 4096 ==> page[b] == 0
  {
    ghost var m := vmm.ram;
    for b := 0 to 4096
      invariant f in vmm.ram && vmm.ram == m[f := vmm.ram[f]]
      invariant forall c :: 0 <= c < b ==> vmm.ram[f][c] == 0
    {
      vmm.ram := vmm.ram[f := vmm.ram[f][b := 0]];
    }
    assert vmm.ram == m[f := vmm.ram[f]];
  }

  /** `dest[j] = src[j]` into a frame. */
  method CopyIntoFrame(vmm: Vmm, f: nat, dest: nat, file: seq<byte>, src: nat, amount: nat)
    requires f in vmm.ram && dest + amount <= 4096 && src + amount <= |file|
    modifies vmm`ram
    ensures f in vmm.ram && vmm.ram == old(vmm.ram)[f := vmm.ram[f]]
    ensures forall c :: 0 <= c < 4096 ==>
      vmm.ram[f][c] == if dest <= c < dest + amount then file[src + (c - dest)] else old(vmm.ram)[f][c]
  {
    ghost var m := vmm.ram;
    for j := 0 to amount
      invariant f in vmm.ram && vmm.ram == m[f := vmm.ram[f]]
      invariant forall c :: 0 <= c < 4096 ==>
        vmm.ram[f][c] == if dest <= c < dest + j then file[src + (c - dest)] else m[f][c]
    {
      vmm.ram := vmm.ram[f := vmm.ram[f][dest + j := file[src + j]]];
    }
  }

  /** Zeroes a frame and copies the clip of the segment that falls into page `v`. */
  method FillPage(vmm: Vmm, f: nat, file: seq<byte>, ph: Phdr, v: nat)
    requires f in vmm.ram && SegmentOk(file, ph)
    modifies vmm`ram
    ensures f in vmm.ram && vmm.ram == old(vmm.ram)[f := vmm.ram[f]] && IsPageImage(vmm.ram[f], file, ph, v)
  {
    ZeroFrame(vmm, f);
    var page := v * 4096;
    var segStart := ph.vaddr;
    var segEnd := ph.vaddr + ph.filesz;
    var copyStart := page;
    if copyStart < segStart { copyStart := segStart; }
    var copyEnd := page + 0x1000;
    if copyEnd > segEnd { copyEnd := segEnd; }
    if copyStart < copyEnd {
      CopyIntoFrame(vmm, f, copyStart - page, file, ph.offset + (copyStart - segStart), copyEnd - copyStart);
    }
  }

  lemma UserPage(v: nat)
    requires v * 4096 < USER_END
    ensures v < PAGES && !Upper(v) && VpnOf(v * 4096) == v
  {
  }

  /** A new frame, mapped at page `v` with the flags of the segment. */
  method MapNewFrame(vmm: Vmm, ph: Phdr, v: Vpn) returns (f: nat)
    requires vmm.Valid() && v * 4096 < USER_END && PathClear(vmm.ram, vmm.pml4, v) && |vmm.pmm.free| >= 4
    modifies vmm`ram, vmm`tags, vmm.pmm`free, vmm.pmm.bitmap
    ensures vmm.Valid() && vmm.pmm.free <= old(vmm.pmm.free) && |vmm.pmm.free| >= |old(vmm.pmm.free)| - 4
    ensures f in old(vmm.pmm.free) && f !in vmm.pmm.free && f !in vmm.tags && f in vmm.ram && f * 4096 < TWO52
    ensures vmm.tags.Keys <= old(vmm.tags.Keys) + old(vmm.pmm.free)
    ensures MapStep(old(vmm.View()), vmm.View(), vmm.pml4, v, PageEntry(f * 4096, PageFlags(ph)))
  {
    hide Frames.Pmm.Valid, Typed, Walk, PathClear, MapStep, PageFlags, PageEntry, Prepares;
    UserPage(v);
    ghost var tags, free := vmm.tags, vmm.pmm.free;
    var physFrame := vmm.pmm.Alloc();
    f := Masked(physFrame);
    assert physFrame == f * 4096;
    PageFlagsBits(ph);
    var ok := vmm.MapPage(v * 4096, physFrame, PageFlags(ph));
  }

  /** The body of the page loop. */
  method LoadPage(vmm: Vmm, file: seq<byte>, ph: Phdr, v: Vpn)
    requires vmm.Valid() && SegmentOk(file, ph) && v * 4096 < USER_END && PathClear(vmm.ram, vmm.pml4, v)
    requires |vmm.pmm.free| >= 4
    modifies vmm`ram, vmm`tags, vmm.pmm`free, vmm.pmm.bitmap
    ensures vmm.Valid() && vmm.pmm.free <= old(vmm.pmm.free) && |vmm.pmm.free| >= |old(vmm.pmm.free)| - 4
    ensures LoadStep(old(vmm.View()), vmm.View(), old(vmm.pmm.free), vmm.pml4, {v})
    ensures PageLoaded(vmm.View(), vmm.pmm.free, vmm.pml4, file, ph, v)
  {
    hide Frames.Pmm.Valid, SlotTyped, Walk, PathClear, MapStep, LoadStep, PageLoaded, PageFlags, PageEntry, IsPageImage;
    UserPage(v);
    ghost var s0, free := vmm.View(), vmm.pmm.free;
    var f := MapNewFrame(vmm, ph, v);
    ghost var s1 := vmm.View();
    FillPage(vmm, f, file, ph, v);
    PageStep(s0, s1, free, vmm.pml4, v, f, vmm.ram[f], file, ph);
  }

  /** The first `n` pages of a segment. */
  ghost function SegmentPages(ph: Phdr, n: nat): set<Vpn> {
    set v: Vpn | Among(ph, n, v)
  }

  /** The loop over the pages of one segment. */
  method LoadSegment(vmm: Vmm, file: seq<byte>, ph: Phdr)
    requires vmm.Valid() && SegmentOk(file, ph) && |vmm.pmm.free| >= 4 * NumPages(ph)
    requires forall v: Vpn :: InSegment(ph, v) ==> PathClear(vmm.ram, vmm.pml4, v)
    modifies vmm`ram, vmm`tags, vmm.pmm`free, vmm.pmm.bitmap
    ensures vmm.Valid() && vmm.pmm.free <= old(vmm.pmm.free) && |vmm.pmm.free| >= |old(vmm.pmm.free)| - 4 * NumPages(ph)
    ensures LoadStep(old(vmm.View()), vmm.View(), old(vmm.pmm.free), vmm.pml4, SegmentPages(ph, NumPages(ph)))
    ensures forall v: Vpn :: InSegment(ph, v) ==> PageLoaded(vmm.View(), vmm.pmm.free, vmm.pml4, file, ph, v)
  {
    hide Frames.Pmm.Valid, Typed, Walk, PathClear, LoadStep, PageLoaded;
    ghost var s0, free := vmm.View(), vmm.pmm.free;
    LoadNothing(s0, free, vmm.pml4);
    assert SegmentPages(ph, 0) == {};
    for p := 0 to NumPages(ph)
      invariant vmm.Valid() && vmm.pmm.free <= free && |vmm.pmm.free| >= |free| - 4 * p
      invariant LoadStep(s0, vmm.View(), free, vmm.pml4, SegmentPages(ph, p))
      invariant forall v: Vpn :: Among(ph, p, v) ==> PageLoaded(vmm.View(), vmm.pmm.free, vmm.pml4, file, ph, v)
    {
      var page := FirstPage(ph) + p;
      UserPage(page);
      ghost var s1, free1 := vmm.View(), vmm.pmm.free;
      StillClearAfterLoad(s0, s1, free, vmm.pml4, SegmentPages(ph, p), page);
      LoadPage(vmm, file, ph, page);
      LoadSteps(s0, s1, vmm.View(), free, free1, vmm.pml4, SegmentPages(ph, p), {page});
      assert SegmentPages(ph, p) + {page} == SegmentPages(ph, p + 1);
      forall v: Vpn | Among(ph, p, v)
        ensures PageLoaded(vmm.View(), vmm.pmm.free, vmm.pml4, file, ph, v)
      {
        LoadedStays(s1, vmm.View(), free1, vmm.pmm.free, vmm.pml4, {page}, file, ph, v);
      }
    }
  }

  lemma StillClearAfterLoad(s: Space, s': Space, free: set<nat>, root: nat, pages: set<Vpn>, v: Vpn)
    requires LoadStep(s, s', free, root, pages) && v !in pages && IsRoot(s.tags, root) && PathClear(s.ram, root, v)
    ensures PathClear(s'.ram, root, v)
  {
  }

  // ----- whole executables

  /** An ELF file `elf_load` does not turn away at once. */
  predicate Executable(file: seq<byte>) {
    |file| >= EHDR_SIZE && Magic(file) && ParseEhdr(file).machine == EM_X86_64 && ParseEhdr(file).etype == ET_EXEC
  }

  predicate HasPhdrs(file: seq<byte>) {
    Executable(file) && ParseEhdr(file).phoff + PHDR_SIZE * ParseEhdr(file).phnum <= |file|
  }

  function PhdrAt(file: seq<byte>, i: nat): Phdr
    requires HasPhdrs(file) && i < ParseEhdr(file).phnum
  {
    ParsePhdr(file, ParseEhdr(file).phoff + PHDR_SIZE * i)
  }

  predicate Loadable(file: seq<byte>, i: nat)
    requires HasPhdrs(file)
  {
    i < ParseEhdr(file).phnum && PhdrAt(file, i).ptype == PT_LOAD
  }

  /** What `elf_load` asks of the executables it loads. */
  ghost predicate WellFormed(file: seq<byte>) {
    && HasPhdrs(file)
    && (forall i :: 0 <= i < ParseEhdr(file).phnum && Loadable(file, i) ==> SegmentOk(file, PhdrAt(file, i)))
    && (forall i, j, v :: 0 <= i < j < ParseEhdr(file).phnum && Loadable(file, i) && Loadable(file, j) && InSegment(PhdrAt(file, i), v)
          ==> !InSegment(PhdrAt(file, j), v))
  }

  /** The pages of the first `n` program headers. */
  function PageTotal(file: seq<byte>, n: nat): nat
    requires HasPhdrs(file) && n <= ParseEhdr(file).phnum
  {
    if n == 0 then 0 else PageTotal(file, n - 1) + if Loadable(file, n - 1) then NumPages(PhdrAt(file, n - 1)) else 0
  }

  lemma {:induction false} PageTotalGrows(file: seq<byte>, m: nat, n: nat)
    requires HasPhdrs(file) && m <= n <= ParseEhdr(file).phnum
    ensures PageTotal(file, m) <= PageTotal(file, n)
  {
    hide Loadable, NumPages, ParseEhdr, ParsePhdr;
    if m < n {
      PageTotalGrows(file, m, n - 1);
    }
  }

  ghost predicate CoveredBy(file: seq<byte>, n: nat, v: nat)
    requires HasPhdrs(file) && n <= ParseEhdr(file).phnum
  {
    exists i :: 0 <= i < n && Loadable(file, i) && InSegment(PhdrAt(file, i), v)
  }

  ghost function CoveredPages(file: seq<byte>, n: nat): set<Vpn>
    requires HasPhdrs(file) && n <= ParseEhdr(file).phnum
  {
    set v: Vpn | CoveredBy(file, n, v)
  }

  /** All pages of the first `n` program headers are loaded. */
  ghost predicate SegmentsLoaded(s: Space, free: set<nat>, root: nat, file: seq<byte>, n: nat)
    requires WellFormed(file) && n <= ParseEhdr(file).phnum
  {
    forall i, v: Vpn :: 0 <= i < n && Loadable(file, i) && InSegment(PhdrAt(file, i), v) ==>
      PageLoaded(s, free, root, file, PhdrAt(file, i), v)
  }

  /** The body of the loop over the program headers. */
  method LoadHeader(vmm: Vmm, file: seq<byte>, i: nat, ghost s0: Space, ghost free: set<nat>)
    requires vmm.Valid() && WellFormed(file) && i < ParseEhdr(file).phnum
    requires |free| >= 4 * PageTotal(file, ParseEhdr(file).phnum) && IsRoot(s0.tags, vmm.pml4)
    requires forall v: Vpn :: CoveredBy(file, ParseEhdr(file).phnum, v) ==> PathClear(s0.ram, vmm.pml4, v)
    requires vmm.pmm.free <= free && |vmm.pmm.free| >= |free| - 4 * PageTotal(file, i)
    requires LoadStep(s0, vmm.View(), free, vmm.pml4, CoveredPages(file, i))
    requires SegmentsLoaded(vmm.View(), vmm.pmm.free, vmm.pml4, file, i)
    modifies vmm`ram, vmm`tags, vmm.pmm`free, vmm.pmm.bitmap
    ensures vmm.Valid() && vmm.pmm.free <= free && |vmm.pmm.free| >= |free| - 4 * PageTotal(file, i + 1)
    ensures LoadStep(s0, vmm.View(), free, vmm.pml4, CoveredPages(file, i + 1))
    ensures SegmentsLoaded(vmm.View(), vmm.pmm.free, vmm.pml4, file, i + 1)
  {
    hide Frames.Pmm.Valid, Typed, Walk, PathClear, LoadStep, PageLoaded, ParsePhdr, ParseEhdr, SegmentsLoaded, CoveredPages, NumPages;
    ghost var s1, free1 := vmm.View(), vmm.pmm.free;
    var ph := PhdrAt(file, i);
    PageTotalGrows(file, i + 1, ParseEhdr(file).phnum);
    if ph.ptype == PT_LOAD {
      SegmentClear(s0, s1, free, vmm.pml4, file, i);
      LoadSegment(vmm, file, ph);
      LoadSteps(s0, s1, vmm.View(), free, free1, vmm.pml4, CoveredPages(file, i), SegmentPages(ph, NumPages(ph)));
      OneMoreSegment(s1, vmm.View(), free1, vmm.pmm.free, vmm.pml4, file, i);
    } else {
      SegmentSkipped(s1, free1, vmm.pml4, file, i);
    }
  }

  /** `elf_load`: the entry point, or 0 for a file that is not an x86-64 executable. */
  method Load(vmm: Vmm, file: seq<byte>) returns (entry: nat)
    requires vmm.Valid() && |file| >= EHDR_SIZE
    requires Executable(file) ==> WellFormed(file) && |vmm.pmm.free| >= 4 * PageTotal(file, ParseEhdr(file).phnum)
    requires Executable(file) ==> forall v: Vpn :: CoveredBy(file, ParseEhdr(file).phnum, v) ==> PathClear(vmm.ram, vmm.pml4, v)
    modifies vmm`ram, vmm`tags, vmm.pmm`free, vmm.pmm.bitmap
    ensures vmm.Valid()
    ensures !Executable(file) ==> entry == 0 && vmm.View() == old(vmm.View())
    ensures Executable(file) ==> entry == ParseEhdr(file).entry
    ensures Executable(file) ==> SegmentsLoaded(vmm.View(), vmm.pmm.free, vmm.pml4, file, ParseEhdr(file).phnum)
    ensures Executable(file) ==>
      LoadStep(old(vmm.View()), vmm.View(), old(vmm.pmm.free), vmm.pml4, CoveredPages(file, ParseEhdr(file).phnum))
  {
    hide Frames.Pmm.Valid, Typed, IsRoot, PathClear, LoadStep, ParseEhdr, SegmentsLoaded, CoveredPages, CoveredBy, PageTotal, Loadable, Magic;
    if !Magic(file) { return 0; }
    var ehdr := ParseEhdr(file);
    if ehdr.machine != EM_X86_64 || ehdr.etype != ET_EXEC { return 0; }
    ghost var s0, free := vmm.View(), vmm.pmm.free;
    LoadNothing(s0, free, vmm.pml4);
    NoSegments(s0, free, vmm.pml4, file);
    for i := 0 to ehdr.phnum
      invariant vmm.Valid() && vmm.pmm.free <= free && |vmm.pmm.free| >= |free| - 4 * PageTotal(file, i)
      invariant LoadStep(s0, vmm.View(), free, vmm.pml4, CoveredPages(file, i))
      invariant SegmentsLoaded(vmm.View(), vmm.pmm.free, vmm.pml4, file, i)
    {
      LoadHeader(vmm, file, i, s0, free);
    }
    entry := ehdr.entry;
  }

  lemma NoSegments(s: Space, free: set<nat>, root: nat, file: seq<byte>)
    requires WellFormed(file)
    ensures SegmentsLoaded(s, free, root, file, 0) && CoveredPages(file, 0) == {} && PageTotal(file, 0) == 0
  {
    assert forall v: Vpn :: !CoveredBy(file, 0, v);
  }

  lemma SegmentSkipped(s: Space, free: set<nat>, root: nat, file: seq<byte>, i: nat)
    requires WellFormed(file) && i < ParseEhdr(file).phnum && !Loadable(file, i)
    requires SegmentsLoaded(s, free, root, file, i)
    ensures SegmentsLoaded(s, free, root, file, i + 1) && CoveredPages(file, i + 1) == CoveredPages(file, i)
  {
    forall v: Vpn
      ensures CoveredBy(file, i + 1, v) <==> CoveredBy(file, i, v)
    {
    }
  }

  lemma SegmentClear(s: Space, s': Space, free: set<nat>, root: nat, file: seq<byte>, i: nat)
    requires WellFormed(file) && i < ParseEhdr(file).phnum && Loadable(file, i) && IsRoot(s.tags, root)
    requires LoadStep(s, s', free, root, CoveredPages(file, i))
    requires forall v: Vpn :: CoveredBy(file, ParseEhdr(file).phnum, v) ==> PathClear(s.ram, root, v)
    ensures forall v: Vpn :: InSegment(PhdrAt(file, i), v) ==> PathClear(s'.ram, root, v)
  {
    hide LoadStep, ParsePhdr, ParseEhdr, PathClear;
    forall v: Vpn | InSegment(PhdrAt(file, i), v)
      ensures PathClear(s'.ram, root, v)
    {
      assert CoveredBy(file, ParseEhdr(file).phnum, v);
      StillClearAfterLoad(s, s', free, root, CoveredPages(file, i), v);
    }
  }

  lemma OneMoreSegment(s: Space, s': Space, free: set<nat>, free': set<nat>, root: nat, file: seq<byte>, i: nat)
    requires WellFormed(file) && i < ParseEhdr(file).phnum && Loadable(file, i) && IsRoot(s.tags, root) && free' <= free
    requires SegmentsLoaded(s, free, root, file, i)
    requires var ph := PhdrAt(file, i);
      && LoadStep(s, s', free, root, SegmentPages(ph, NumPages(ph)))
      && forall v: Vpn :: InSegment(ph, v) ==> PageLoaded(s', free', root, file, ph, v)
    ensures SegmentsLoaded(s', free', root, file, i + 1)
    ensures CoveredPages(file, i + 1) == CoveredPages(file, i) + SegmentPages(PhdrAt(file, i), NumPages(PhdrAt(file, i)))
  {
    hide LoadStep, ParsePhdr, ParseEhdr, PageLoaded;
    var pages := SegmentPages(PhdrAt(file, i), NumPages(PhdrAt(file, i)));
    forall k, v: Vpn | 0 <= k < i + 1 && Loadable(file, k) && InSegment(PhdrAt(file, k), v)
      ensures PageLoaded(s', free', root, file, PhdrAt(file, k), v)
    {
      if k < i {
        LoadedStays(s, s', free, free', root, pages, file, PhdrAt(file, k), v);
      }
    }
    forall v: Vpn
      ensures CoveredBy(file, i + 1, v) <==> CoveredBy(file, i, v) || Among(PhdrAt(file, i), NumPages(PhdrAt(file, i)), v)
    {
    }
  }

  /** After a load, every address from the first to the last page of every loadable segment reads as
      the file byte inside the file range of the segment and as zero around it. */
  lemma ReadsBack(s: Space, free: set<nat>, root: nat, file: seq<byte>, i: nat, x: nat)
    requires WellFormed(file) && SegmentsLoaded(s, free, root, file, ParseEhdr(file).phnum)
    requires Loadable(file, i) && InSegment(PhdrAt(file, i), x / 4096)
    ensures ReadByte(s.ram, root, x) == Some(SegmentByte(file, PhdrAt(file, i), x))
  {
    hide Walk, ParsePhdr, ParseEhdr;
    UserPage(x / 4096);
    assert x / 4096 * 4096 + x % 4096 == x;
    assert PageLoaded(s, free, root, file, PhdrAt(file, i), x / 4096);
  }

  /** The pages of a segment are those from that of its first address on that begin before its end. */
  lemma PagesExact(ph: Phdr, v: nat)
    ensures InSegment(ph, v) <==> ph.vaddr / 4096 <= v && v * 4096 < ph.vaddr + ph.memsz
  {
    var p, o := ph.vaddr / 4096, ph.vaddr % 4096;
    assert ph.vaddr == p * 4096 + o;
    if v >= p {
      RoundsUp(v - p, ph.memsz + o);
    }
  }

  lemma RoundsUp(k: nat, size: nat)
    ensures k < (size + 4095) / 4096 <==> k * 4096 < size
  {
  }

  /** Every byte of the file range of a segment lies in one of its pages. */
  lemma PagesCoverSegment(ph: Phdr, x: nat)
    requires ph.vaddr <= x < ph.vaddr + ph.memsz
    ensures InSegment(ph, x / 4096)
  {
  }
}
