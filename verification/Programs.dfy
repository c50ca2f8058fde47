/** Loading an executable, told in terms of the file as it was written: the values of its header and program
    headers, and the bytes a program then reads. */
module Programs {
  import opened Bytes
  import opened Elf
  import opened ElfFormat
  import opened Paging
  import opened Mapping
  import opened Vmm
  import opened ElfLoader
  import Frames = Pmm

  /** The file starts with the header `h` and holds the program headers `phs` where the header says. */
  ghost predicate HoldsProgram(file: seq<byte>, h: RawEhdr, phs: seq<RawPhdr>) {
    && h.Ok() && Written(file, 0, h.Bytes()) && h.phnum == |phs| && h.phoff + 56 * |phs| <= |file|
    && forall i :: 0 <= i < |phs| ==> phs[i].Ok() && Written(file, h.phoff + 56 * i, phs[i].Bytes())
  }

  /** 0x7F "ELF", for x86-64, of type EXEC. */
  predicate IsExecutable(h: RawEhdr)
    requires h.Ok()
  {
    h.ident[0] == 0x7F && h.ident[1] == 0x45 && h.ident[2] == 0x4C && h.ident[3] == 0x46 && h.machine == 62 && h.etype == 2
  }

  /** PT_LOAD */
  predicate IsLoad(ph: RawPhdr) { ph.ptype == 1 }

  /** Page `v` begins before the end of the segment and does not end before its start. */
  predicate PageOf(ph: RawPhdr, v: nat) { ph.vaddr / 4096 <= v && v * 4096 < ph.vaddr + ph.memsz }

  /** Segments lie in the file and in the lower half, and no two share a page. */
  ghost predicate ProgramOk(file: seq<byte>, phs: seq<RawPhdr>) {
    && (forall i :: 0 <= i < |phs| && IsLoad(phs[i]) ==>
          phs[i].filesz <= phs[i].memsz && phs[i].offset + phs[i].filesz <= |file| && phs[i].vaddr + phs[i].memsz <= 0x8000_0000_0000)
    && (forall i, j, v :: 0 <= i < j < |phs| && IsLoad(phs[i]) && IsLoad(phs[j]) && PageOf(phs[i], v) ==> !PageOf(phs[j], v))
  }

  /** The pages of the first `n` program headers. */
  function PagesOf(phs: seq<RawPhdr>, n: nat): nat
    requires n <= |phs|
  {
    if n == 0 then 0
    else PagesOf(phs, n - 1) + if IsLoad(phs[n - 1]) then (phs[n - 1].memsz + phs[n - 1].vaddr % 4096 + 4095) / 4096 else 0
  }

  /** A program reads the file byte inside the file range and zero around it, and may write exactly if bit 1 of
      the segment's flags is set; the entry has the present and user bits, that write bit, and no other flag. */
  ghost predicate Shows(m: Ram, root: nat, file: seq<byte>, ph: RawPhdr, x: nat)
    requires ph.offset + ph.filesz <= |file|
  {
    && ReadByte(m, root, x) == Some(if ph.vaddr <= x < ph.vaddr + ph.filesz then file[ph.offset + (x - ph.vaddr)] else 0)
    && var l := Walk(m, root, VpnOf(x), 3);
      && l.Mapped? && l.user && (l.write <==> ph.flags / 2 % 2 == 1)
      && forall k: nat :: k < 12 || k >= 52 ==> (Bit(l.entry, k) <==> k == 0 || k == 2 || (k == 1 && ph.flags / 2 % 2 == 1))
  }

  // ----- what the loader sees in such a file

  function Parsed(h: RawPhdr): Phdr { Phdr(h.ptype, h.flags, h.offset, h.vaddr, h.filesz, h.memsz) }

  lemma HeaderSeen(file: seq<byte>, h: RawEhdr, phs: seq<RawPhdr>)
    requires HoldsProgram(file, h, phs)
    ensures |file| >= 64 && (Executable(file) <==> IsExecutable(h))
    ensures ParseEhdr(file).entry == h.entry && ParseEhdr(file).phnum == |phs| && ParseEhdr(file).phoff == h.phoff
    ensures IsExecutable(h) ==> HasPhdrs(file)
  {
    hide ParseEhdr, RawEhdr.Bytes;
    EhdrReads(file, h);
  }

  lemma PhdrSeen(file: seq<byte>, h: RawEhdr, phs: seq<RawPhdr>, i: nat)
    requires HoldsProgram(file, h, phs) && IsExecutable(h) && i < |phs| && HasPhdrs(file) && i < ParseEhdr(file).phnum
    ensures PhdrAt(file, i) == Parsed(phs[i]) && (Loadable(file, i) <==> IsLoad(phs[i]))
    ensures forall v: nat :: InSegment(PhdrAt(file, i), v) <==> PageOf(phs[i], v)
  {
    hide ParseEhdr, ParsePhdr, RawEhdr.Bytes, RawPhdr.Bytes, InSegment;
    HeaderSeen(file, h, phs);
    PhdrReads(file, h.phoff + 56 * i, phs[i]);
    forall v: nat
      ensures InSegment(PhdrAt(file, i), v) <==> PageOf(phs[i], v)
    {
      PagesExact(PhdrAt(file, i), v);
    }
  }

  lemma WellFormedSeen(file: seq<byte>, h: RawEhdr, phs: seq<RawPhdr>)
    requires HoldsProgram(file, h, phs) && IsExecutable(h) && ProgramOk(file, phs)
    ensures WellFormed(file) && ParseEhdr(file).phnum == |phs|
  {
    hide ParseEhdr, ParsePhdr, InSegment, PageOf, HoldsProgram, Loadable, PhdrAt, IsExecutable;
    HeaderSeen(file, h, phs);
    forall i | 0 <= i < |phs|
      ensures PhdrAt(file, i) == Parsed(phs[i]) && (Loadable(file, i) <==> IsLoad(phs[i]))
      ensures forall v: nat :: InSegment(PhdrAt(file, i), v) <==> PageOf(phs[i], v)
    {
      PhdrSeen(file, h, phs, i);
    }
  }

  lemma {:induction false} TotalSeen(file: seq<byte>, h: RawEhdr, phs: seq<RawPhdr>, n: nat)
    requires HoldsProgram(file, h, phs) && IsExecutable(h) && n <= |phs| && HasPhdrs(file) && ParseEhdr(file).phnum == |phs|
    ensures PageTotal(file, n) == PagesOf(phs, n)
  {
    hide ParseEhdr, HoldsProgram, Loadable, PhdrAt, IsExecutable, HasPhdrs;
    if n > 0 {
      TotalSeen(file, h, phs, n - 1);
      PhdrSeen(file, h, phs, n - 1);
    }
  }

  lemma CoveredSeen(file: seq<byte>, h: RawEhdr, phs: seq<RawPhdr>, v: nat)
    requires HoldsProgram(file, h, phs) && IsExecutable(h) && HasPhdrs(file) && ParseEhdr(file).phnum == |phs|
    ensures CoveredBy(file, |phs|, v) <==> exists i :: 0 <= i < |phs| && IsLoad(phs[i]) && PageOf(phs[i], v)
  {
    hide ParseEhdr, HoldsProgram, PageOf, InSegment, IsExecutable, PhdrAt, Loadable, HasPhdrs;
    forall i | 0 <= i < |phs|
      ensures (Loadable(file, i) <==> IsLoad(phs[i])) && (InSegment(PhdrAt(file, i), v) <==> PageOf(phs[i], v))
    {
      PhdrSeen(file, h, phs, i);
    }
  }

  /** The flags of a loaded page, bit by bit. */
  lemma LoadedBits(frame: nat, ph: Phdr)
    requires frame < FRAMES
    ensures var e := PageEntry(frame * 4096, PageFlags(ph));
      forall k: nat :: k < 12 || k >= 52 ==> (Bit(e, k) <==> k == 0 || k == 2 || (k == 1 && PfW(ph)))
  {
    hide PageEntry, PageFlags, Bit;
    PageFlagsBits(ph);
    forall k: nat | k < 12 || k >= 52
      ensures Bit(PageEntry(frame * 4096, PageFlags(ph)), k) <==> k == 0 || k == 2 || (k == 1 && PfW(ph))
    {
      PageEntryBit(frame * 4096, PageFlags(ph), k);
      PageFlagsBit(ph, k);
      if k >= 52 { NoHighBit(frame * 4096, k); }
    }
  }

  /** A page of a loaded segment shows what was written. */
  lemma PageShows(s: Space, free: set<nat>, root: nat, file: seq<byte>, h: RawEhdr, phs: seq<RawPhdr>, i: nat, x: nat)
    requires HoldsProgram(file, h, phs) && IsExecutable(h) && ProgramOk(file, phs) && WellFormed(file) && ParseEhdr(file).phnum == |phs|
    requires SegmentsLoaded(s, free, root, file, |phs|) && i < |phs| && IsLoad(phs[i]) && PageOf(phs[i], x / 4096)
    ensures Shows(s.ram, root, file, phs[i], x)
  {
    hide Walk, ParseEhdr, HoldsProgram, IsExecutable, PageEntry, PageFlags, Bit, Loadable, PhdrAt, InSegment, PageLeaf, IsPageImage, SegmentsLoaded, PageLoaded;
    PhdrSeen(file, h, phs, i);
    ReadsBack(s, free, root, file, i, x);
    PageAccess(s, free, root, file, i, x);
    BitIs(phs[i].flags, 1);
    assert Pow2(1) == 2 * Pow2(0);
  }

  lemma PageAccess(s: Space, free: set<nat>, root: nat, file: seq<byte>, i: nat, x: nat)
    requires WellFormed(file) && SegmentsLoaded(s, free, root, file, ParseEhdr(file).phnum)
    requires Loadable(file, i) && InSegment(PhdrAt(file, i), x / 4096)
    ensures var l := Walk(s.ram, root, VpnOf(x), 3); var w := PfW(PhdrAt(file, i));
      && l.Mapped? && l.user && l.write == w
      && forall k: nat :: k < 12 || k >= 52 ==> (Bit(l.entry, k) <==> k == 0 || k == 2 || (k == 1 && w))
  {
    hide Walk, ParsePhdr, ParseEhdr, PageEntry, PageFlags, Bit, PageLeaf, IsPageImage;
    UserPage(x / 4096);
    assert x / 4096 * 4096 + x % 4096 == x;
    assert PageLoaded(s, free, root, file, PhdrAt(file, i), x / 4096);
    LoadedBits(Frame(Walk(s.ram, root, VpnOf(x), 3).entry), PhdrAt(file, i));
  }

  /** Every page of every segment shows what was written. */
  ghost predicate AllShow(m: Ram, root: nat, file: seq<byte>, phs: seq<RawPhdr>)
    requires ProgramOk(file, phs)
  {
    forall i, x: nat :: 0 <= i < |phs| && IsLoad(phs[i]) && PageOf(phs[i], x / 4096) ==> Shows(m, root, file, phs[i], x)
  }

  ghost predicate SomeSegment(phs: seq<RawPhdr>, v: nat) {
    exists i :: 0 <= i < |phs| && IsLoad(phs[i]) && PageOf(phs[i], v)
  }

  /** Every page outside the segments, and every page of another root, keeps its leaf and loses no access. */
  ghost predicate RestWidens(s: Space, s': Space, root: nat, phs: seq<RawPhdr>) {
    forall r, w: Vpn :: IsRoot(s.tags, r) && !(r == root && SomeSegment(phs, w)) ==> Widens(Walk(s.ram, r, w, 3), Walk(s'.ram, r, w, 3))
  }

  /** No large page covers a page of a segment. */
  ghost predicate RoomFor(m: Ram, root: nat, phs: seq<RawPhdr>) {
    forall v: Vpn :: SomeSegment(phs, v) ==> PathClear(m, root, v)
  }

  /** Such a file may be loaded. */
  lemma MayLoad(file: seq<byte>, h: RawEhdr, phs: seq<RawPhdr>, m: Ram, root: nat)
    requires HoldsProgram(file, h, phs) && IsExecutable(h) && ProgramOk(file, phs) && RoomFor(m, root, phs)
    ensures Executable(file) && WellFormed(file) && ParseEhdr(file).phnum == |phs| && ParseEhdr(file).entry == h.entry
    ensures PageTotal(file, |phs|) == PagesOf(phs, |phs|)
    ensures forall v: Vpn :: CoveredBy(file, |phs|, v) ==> PathClear(m, root, v)
  {
    hide PathClear, HoldsProgram, IsExecutable, ParseEhdr, PageOf, Loadable, WellFormed, Executable, HasPhdrs, CoveredBy;
    HeaderSeen(file, h, phs);
    WellFormedSeen(file, h, phs);
    TotalSeen(file, h, phs, |phs|);
    forall v: Vpn | CoveredBy(file, |phs|, v)
      ensures PathClear(m, root, v)
    {
      CoveredSeen(file, h, phs, v);
    }
  }

  /** What a load leaves behind, in these terms. */
  lemma WasLoaded(s: Space, s': Space, free: set<nat>, free': set<nat>, root: nat, file: seq<byte>, h: RawEhdr, phs: seq<RawPhdr>)
    requires HoldsProgram(file, h, phs) && IsExecutable(h) && ProgramOk(file, phs) && WellFormed(file) && ParseEhdr(file).phnum == |phs|
    requires SegmentsLoaded(s', free', root, file, |phs|) && LoadStep(s, s', free, root, CoveredPages(file, |phs|))
    ensures AllShow(s'.ram, root, file, phs) && RestWidens(s, s', root, phs)
  {
    hide Walk, HoldsProgram, IsExecutable, ParseEhdr, Shows, PageOf, SegmentsLoaded, CoveredBy, InSegment, Loadable, PhdrAt;
    forall i, x: nat | 0 <= i < |phs| && IsLoad(phs[i]) && PageOf(phs[i], x / 4096)
      ensures Shows(s'.ram, root, file, phs[i], x)
    {
      PageShows(s', free', root, file, h, phs, i, x);
    }
    forall r, w: Vpn | IsRoot(s.tags, r) && !(r == root && SomeSegment(phs, w))
      ensures Widens(Walk(s.ram, r, w, 3), Walk(s'.ram, r, w, 3))
    {
      CoveredSeen(file, h, phs, w);
    }
  }

  /** `elf_load` of a file that was written as `h` and `phs`. */
  method LoadProgram(vmm: Vmm, file: seq<byte>, ghost h: RawEhdr, ghost phs: seq<RawPhdr>) returns (entry: nat)
    requires vmm.Valid() && HoldsProgram(file, h, phs)
    requires IsExecutable(h) ==> ProgramOk(file, phs) && |vmm.pmm.free| >= 4 * PagesOf(phs, |phs|) && RoomFor(vmm.ram, vmm.pml4, phs)
    modifies vmm`ram, vmm`tags, vmm.pmm`free, vmm.pmm.bitmap
    ensures vmm.Valid()
    ensures if IsExecutable(h) then entry == h.entry else entry == 0 && vmm.View() == old(vmm.View())
    ensures IsExecutable(h) ==> AllShow(vmm.ram, vmm.pml4, file, phs) && RestWidens(old(vmm.View()), vmm.View(), vmm.pml4, phs)
  {
    hide Frames.Pmm.Valid, Typed, PathClear, Walk, IsExecutable, ParseEhdr, PageOf, Loadable, SegmentsLoaded, WellFormed, Executable, HasPhdrs,
      AllShow, RestWidens, RoomFor, LoadStep, CoveredPages, CoveredBy, PageTotal, PagesOf, ProgramOk;
    ghost var s, free := vmm.View(), vmm.pmm.free;
    assert h.Ok();
    HeaderSeen(file, h, phs);
    if IsExecutable(h) {
      MayLoad(file, h, phs, vmm.ram, vmm.pml4);
    }
    entry := Load(vmm, file);
    if IsExecutable(h) {
      WasLoaded(s, vmm.View(), free, vmm.pmm.free, vmm.pml4, file, h, phs);
    }
  }
}
