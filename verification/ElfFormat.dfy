/** The structures of an ELF-64 file as the gABI lays them out (chapter 4, "Object Files", and chapter 5, "Program
    Header"), and what a parser must find in them. */
module ElfFormat {
  import opened Bytes
  import opened Elf

  /** A field that was written reads back. */
  lemma Reads(file: seq<byte>, off: nat, n: nat, v: nat)
    requires off + n <= |file| && file[off..off + n] == ToLe(v, n) && v < Pow256(n)
    ensures Field(file, off, n) == v
  {
    hide ToLe, FromLe, Pow256;
    LeRoundTrip(v, n);
    SmallMod(v, Pow256(n));
  }

  lemma SmallMod(v: nat, m: nat)
    requires v < m
    ensures v % m == v
  {
  }

  /** A part of what was written at `at`. */
  lemma PartOf(file: seq<byte>, at: nat, b: seq<byte>, from: nat, n: nat)
    requires at + |b| <= |file| && file[at..at + |b|] == b && from + n <= |b|
    ensures file[at + from..at + from + n] == b[from..from + n]
  {
    var part, found := b[from..from + n], file[at + from..at + from + n];
    forall k | 0 <= k < n
      ensures found[k] == part[k]
    {
      assert file[at..at + |b|][from + k] == b[from + k];
    }
  }

  /** The bytes `b` stand at offset `at`. */
  predicate Written(file: seq<byte>, at: nat, b: seq<byte>) { at + |b| <= |file| && file[at..at + |b|] == b }

  lemma ReadsPart(file: seq<byte>, at: nat, b: seq<byte>, from: nat, n: nat, v: nat)
    requires Written(file, at, b) && from + n <= |b| && b[from..from + n] == ToLe(v, n) && v < Pow256(n)
    ensures at + from + n <= |file| && Field(file, at + from, n) == v
  {
    PartOf(file, at, b, from, n);
    Reads(file, at + from, n, v);
  }

  lemma Widths()
    ensures Pow256(1) == 0x100 && Pow256(2) == 0x1_0000 && Pow256(4) == TWO32 && Pow256(8) == TWO64
  {
    Pow256Word();
    assert Pow256(1) == 256 * Pow256(0);
    assert Pow256(2) == 256 * Pow256(1);
  }

  // ----- the file header

  datatype RawEhdr = RawEhdr(ident: seq<byte>, etype: nat, machine: nat, version: nat, entry: nat, phoff: nat, shoff: nat, flags: nat,
                             ehsize: nat, phentsize: nat, phnum: nat, shentsize: nat, shnum: nat, shstrndx: nat) {
    predicate Ok() {
      && |ident| == 16 && etype < 0x1_0000 && machine < 0x1_0000 && version < TWO32 && entry < TWO64 && phoff < TWO64
      && shoff < TWO64 && flags < TWO32 && ehsize < 0x1_0000 && phentsize < 0x1_0000 && phnum < 0x1_0000
      && shentsize < 0x1_0000 && shnum < 0x1_0000 && shstrndx < 0x1_0000
    }

    function Bytes(): (b: seq<byte>)
      requires Ok()
      ensures |b| == 64
    {
      ident + ToLe(etype, 2) + ToLe(machine, 2) + ToLe(version, 4) + ToLe(entry, 8) + ToLe(phoff, 8) + ToLe(shoff, 8)
      + ToLe(flags, 4) + ToLe(ehsize, 2) + ToLe(phentsize, 2) + ToLe(phnum, 2) + ToLe(shentsize, 2) + ToLe(shnum, 2) + ToLe(shstrndx, 2)
    }
  }

  lemma EhdrFields(h: RawEhdr)
    requires h.Ok()
    ensures var b := h.Bytes();
      && b[..16] == h.ident && b[16..18] == ToLe(h.etype, 2) && b[18..20] == ToLe(h.machine, 2) && b[24..32] == ToLe(h.entry, 8)
      && b[32..40] == ToLe(h.phoff, 8) && b[40..48] == ToLe(h.shoff, 8) && b[56..58] == ToLe(h.phnum, 2)
      && b[58..60] == ToLe(h.shentsize, 2) && b[60..62] == ToLe(h.shnum, 2)
  {
    hide ToLe;
  }

  /** Parsing the file header undoes writing it. */
  lemma EhdrReads(file: seq<byte>, h: RawEhdr)
    requires h.Ok() && Written(file, 0, h.Bytes())
    ensures ParseEhdr(file) == Ehdr(h.ident[4], h.etype, h.machine, h.entry, h.phoff, h.shoff, h.phnum, h.shentsize, h.shnum)
    ensures file[0] == h.ident[0] && file[1] == h.ident[1] && file[2] == h.ident[2] && file[3] == h.ident[3]
  {
    hide ToLe, FromLe, Pow256, Field, RawEhdr.Bytes;
    Widths();
    EhdrFields(h);
    var b := h.Bytes();
    PartOf(file, 0, b, 0, 16);
    assert file[..16] == h.ident;
    assert forall k :: 0 <= k < 5 ==> file[k] == file[..16][k];
    ReadsPart(file, 0, b, 16, 2, h.etype);
    ReadsPart(file, 0, b, 18, 2, h.machine);
    ReadsPart(file, 0, b, 24, 8, h.entry);
    ReadsPart(file, 0, b, 32, 8, h.phoff);
    ReadsPart(file, 0, b, 40, 8, h.shoff);
    ReadsPart(file, 0, b, 56, 2, h.phnum);
    ReadsPart(file, 0, b, 58, 2, h.shentsize);
    ReadsPart(file, 0, b, 60, 2, h.shnum);
  }

  // ----- program headers

  datatype RawPhdr = RawPhdr(ptype: nat, flags: nat, offset: nat, vaddr: nat, paddr: nat, filesz: nat, memsz: nat, align: nat) {
    predicate Ok() {
      && ptype < TWO32 && flags < TWO32 && offset < TWO64 && vaddr < TWO64 && paddr < TWO64 && filesz < TWO64 && memsz < TWO64 && align < TWO64
    }

    function Bytes(): (b: seq<byte>)
      ensures |b| == 56
    {
      ToLe(ptype, 4) + ToLe(flags, 4) + ToLe(offset, 8) + ToLe(vaddr, 8) + ToLe(paddr, 8) + ToLe(filesz, 8) + ToLe(memsz, 8) + ToLe(align, 8)
    }
  }

  lemma PhdrFields(h: RawPhdr)
    ensures var b := h.Bytes();
      && b[0..4] == ToLe(h.ptype, 4) && b[4..8] == ToLe(h.flags, 4) && b[8..16] == ToLe(h.offset, 8) && b[16..24] == ToLe(h.vaddr, 8)
      && b[32..40] == ToLe(h.filesz, 8) && b[40..48] == ToLe(h.memsz, 8)
  {
    hide ToLe;
  }

  /** Parsing a program header undoes writing it. */
  lemma PhdrReads(file: seq<byte>, at: nat, h: RawPhdr)
    requires h.Ok() && Written(file, at, h.Bytes())
    ensures ParsePhdr(file, at) == Phdr(h.ptype, h.flags, h.offset, h.vaddr, h.filesz, h.memsz)
  {
    hide ToLe, FromLe, Pow256, Field, RawPhdr.Bytes;
    Widths();
    PhdrFields(h);
    var b := h.Bytes();
    ReadsPart(file, at, b, 0, 4, h.ptype);
    ReadsPart(file, at, b, 4, 4, h.flags);
    ReadsPart(file, at, b, 8, 8, h.offset);
    ReadsPart(file, at, b, 16, 8, h.vaddr);
    ReadsPart(file, at, b, 32, 8, h.filesz);
    ReadsPart(file, at, b, 40, 8, h.memsz);
  }

  // ----- section headers

  datatype RawShdr = RawShdr(name: nat, stype: nat, flags: nat, addr: nat, offset: nat, size: nat, link: nat, info: nat, addralign: nat, entsize: nat) {
    predicate Ok() {
      && name < TWO32 && stype < TWO32 && flags < TWO64 && addr < TWO64 && offset < TWO64 && size < TWO64
      && link < TWO32 && info < TWO32 && addralign < TWO64 && entsize < TWO64
    }

    function Bytes(): (b: seq<byte>)
      ensures |b| == 64
    {
      ToLe(name, 4) + ToLe(stype, 4) + ToLe(flags, 8) + ToLe(addr, 8) + ToLe(offset, 8) + ToLe(size, 8)
      + ToLe(link, 4) + ToLe(info, 4) + ToLe(addralign, 8) + ToLe(entsize, 8)
    }
  }

  lemma ShdrFields(h: RawShdr)
    ensures var b := h.Bytes();
      && b[4..8] == ToLe(h.stype, 4) && b[8..16] == ToLe(h.flags, 8) && b[24..32] == ToLe(h.offset, 8) && b[32..40] == ToLe(h.size, 8)
      && b[40..44] == ToLe(h.link, 4) && b[44..48] == ToLe(h.info, 4) && b[48..56] == ToLe(h.addralign, 8)
  {
    hide ToLe;
  }

  /** Parsing a section header undoes writing it. */
  lemma ShdrReads(file: seq<byte>, at: nat, h: RawShdr)
    requires h.Ok() && Written(file, at, h.Bytes())
    ensures ParseShdr(file, at) == Shdr(h.stype, h.flags, h.offset, h.size, h.link, h.info, h.addralign)
  {
    hide ToLe, FromLe, Pow256, Field, RawShdr.Bytes;
    Widths();
    ShdrFields(h);
    var b := h.Bytes();
    ReadsPart(file, at, b, 4, 4, h.stype);
    ReadsPart(file, at, b, 8, 8, h.flags);
    ReadsPart(file, at, b, 24, 8, h.offset);
    ReadsPart(file, at, b, 32, 8, h.size);
    ReadsPart(file, at, b, 40, 4, h.link);
    ReadsPart(file, at, b, 44, 4, h.info);
    ReadsPart(file, at, b, 48, 8, h.addralign);
  }

  // ----- symbols

  datatype RawSym = RawSym(name: nat, info: nat, other: nat, shndx: nat, value: nat, size: nat) {
    predicate Ok() { name < TWO32 && info < 0x100 && other < 0x100 && shndx < 0x1_0000 && value < TWO64 && size < TWO64 }

    function Bytes(): (b: seq<byte>)
      ensures |b| == 24
    {
      ToLe(name, 4) + ToLe(info, 1) + ToLe(other, 1) + ToLe(shndx, 2) + ToLe(value, 8) + ToLe(size, 8)
    }
  }

  lemma SymFields(h: RawSym)
    ensures var b := h.Bytes(); b[0..4] == ToLe(h.name, 4) && b[6..8] == ToLe(h.shndx, 2) && b[8..16] == ToLe(h.value, 8)
  {
    hide ToLe;
  }

  /** Parsing a symbol undoes writing it. */
  lemma SymReads(file: seq<byte>, at: nat, h: RawSym)
    requires h.Ok() && Written(file, at, h.Bytes())
    ensures ParseSym(file, at) == Sym(h.name, h.shndx, h.value)
  {
    hide ToLe, FromLe, Pow256, Field, RawSym.Bytes;
    Widths();
    SymFields(h);
    var b := h.Bytes();
    ReadsPart(file, at, b, 0, 4, h.name);
    ReadsPart(file, at, b, 6, 2, h.shndx);
    ReadsPart(file, at, b, 8, 8, h.value);
  }

  // ----- relocation entries with addend

  /** The symbol index is the high half of `r_info`, the type the low half; the addend is signed. */
  datatype RawRela = RawRela(offset: nat, sym: nat, kind: nat, addend: int) {
    predicate Ok() { offset < TWO64 && sym < TWO32 && kind < TWO32 && -(TWO64 / 2) <= addend < TWO64 / 2 }

    function Bytes(): (b: seq<byte>)
      ensures |b| == 24
    {
      ToLe(offset, 8) + ToLe(kind + TWO32 * sym, 8) + ToLe(addend % TWO64, 8)
    }
  }

  lemma RelaFields(h: RawRela)
    requires h.Ok()
    ensures var b := h.Bytes();
      b[0..8] == ToLe(h.offset, 8) && b[8..12] == ToLe(h.kind, 4) && b[12..16] == ToLe(h.sym, 4) && b[16..24] == ToLe(h.addend % TWO64, 8)
  {
    hide ToLe, Pow256;
    Widths();
    LeHalves(h.kind, h.sym, 4, 4);
    assert h.Bytes() == ToLe(h.offset, 8) + ToLe(h.kind, 4) + ToLe(h.sym, 4) + ToLe(h.addend % TWO64, 8);
  }

  /** Parsing a relocation entry undoes writing it. */
  lemma RelaReads(file: seq<byte>, at: nat, h: RawRela)
    requires h.Ok() && Written(file, at, h.Bytes())
    ensures ParseRela(file, at) == Rela(h.offset, h.sym, h.kind, h.addend % TWO64)
  {
    hide ToLe, FromLe, Pow256, Field, RawRela.Bytes;
    Widths();
    RelaFields(h);
    var b := h.Bytes();
    ReadsPart(file, at, b, 0, 8, h.offset);
    ReadsPart(file, at, b, 8, 4, h.kind);
    ReadsPart(file, at, b, 12, 4, h.sym);
    ReadsPart(file, at, b, 16, 8, h.addend % TWO64);
  }
}
