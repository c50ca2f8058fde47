/** The ELF-64 structures both loaders read, at the offsets the gABI gives them. */
module Elf {
  import opened Bytes

  const EHDR_SIZE := 64
  const PHDR_SIZE := 56

  const EM_X86_64 := 62
  const ET_REL := 1
  const ET_EXEC := 2
  const PT_LOAD := 1

  /** The fields of the file header that the loaders use. */
  datatype Ehdr = Ehdr(elfClass: nat, etype: nat, machine: nat, entry: nat, phoff: nat, shoff: nat,
                       phnum: nat, shentsize: nat, shnum: nat)

  function ParseEhdr(file: seq<byte>): Ehdr
    requires |file| >= EHDR_SIZE
  {
    Ehdr(file[4], Field(file, 16, 2), Field(file, 18, 2), Field(file, 24, 8), Field(file, 32, 8), Field(file, 40, 8),
         Field(file, 56, 2), Field(file, 58, 2), Field(file, 60, 2))
  }

  /** `0x7F 'E' 'L' 'F'` */
  predicate Magic(file: seq<byte>)
    requires |file| >= EHDR_SIZE
  {
    file[0] == 0x7F && file[1] == 0x45 && file[2] == 0x4C && file[3] == 0x46
  }

  datatype Phdr = Phdr(ptype: nat, flags: nat, offset: nat, vaddr: nat, filesz: nat, memsz: nat)

  function ParsePhdr(file: seq<byte>, off: nat): Phdr
    requires off + PHDR_SIZE <= |file|
  {
    Phdr(Field(file, off, 4), Field(file, off + 4, 4), Field(file, off + 8, 8), Field(file, off + 16, 8),
         Field(file, off + 32, 8), Field(file, off + 40, 8))
  }

  const SHDR_SIZE := 64
  const SYM_SIZE := 24
  const RELA_SIZE := 24

  const ELFCLASS64 := 2
  const SHT_SYMTAB := 2
  const SHT_STRTAB := 3
  const SHT_RELA := 4
  const SHT_NOBITS := 8
  const SHN_UNDEF := 0
  const SHN_ABS := 0xFFF1

  datatype Shdr = Shdr(stype: nat, flags: nat, offset: nat, size: nat, link: nat, info: nat, addralign: nat)

  function ParseShdr(file: seq<byte>, off: nat): Shdr
    requires off + SHDR_SIZE <= |file|
  {
    Shdr(Field(file, off + 4, 4), Field(file, off + 8, 8), Field(file, off + 24, 8), Field(file, off + 32, 8),
         Field(file, off + 40, 4), Field(file, off + 44, 4), Field(file, off + 48, 8))
  }

  /** `SHF_ALLOC` is bit 1 of the flags. */
  predicate Alloc(sh: Shdr) { Bit(sh.flags, 1) }

  datatype Sym = Sym(name: nat, shndx: nat, value: nat)

  function ParseSym(file: seq<byte>, off: nat): Sym
    requires off + SYM_SIZE <= |file|
  {
    Sym(Field(file, off, 4), Field(file, off + 6, 2), Field(file, off + 8, 8))
  }

  /** A relocation with addend; the addend is kept as the unsigned word that is stored. */
  datatype Rela = Rela(offset: nat, sym: nat, kind: nat, addend: nat)

  function ParseRela(file: seq<byte>, off: nat): Rela
    requires off + RELA_SIZE <= |file|
  {
    Rela(Field(file, off, 8), Field(file, off + 12, 4), Field(file, off + 8, 4), Field(file, off + 16, 8))
  }
}
