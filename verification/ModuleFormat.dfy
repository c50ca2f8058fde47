/** Loading a module, told in terms of the file as it was written: its section headers, symbols and relocation
    entries, with the numbers the gABI and the AMD64 supplement give them. */
module ModuleFormat {
  import opened Bytes
  import opened Elf
  import opened ElfFormat
  import opened ModuleLayout
  import opened Relocations
  import opened ModuleLoader

  // ----- the file

  /** The file starts with the header `h` and holds the section headers `shs` where the header says. */
  ghost predicate HoldsModule(file: seq<byte>, h: RawEhdr, shs: seq<RawShdr>) {
    && h.Ok() && Written(file, 0, h.Bytes()) && h.shnum == |shs|
    && forall i :: 0 <= i < |shs| ==> shs[i].Ok() && Written(file, h.shoff + 64 * i, shs[i].Bytes())
  }

  /** 0x7F "ELF", 64-bit, for x86-64, of type REL, with section headers of 64 bytes inside the file. */
  predicate IsModule(h: RawEhdr, size: nat)
    requires h.Ok()
  {
    && h.ident[0] == 0x7F && h.ident[1] == 0x45 && h.ident[2] == 0x4C && h.ident[3] == 0x46 && h.ident[4] == 2
    && h.machine == 62 && h.etype == 1 && h.shentsize == 64 && h.shoff <= size
  }

  function ParsedSection(h: RawShdr): Shdr { Shdr(h.stype, h.flags, h.offset, h.size, h.link, h.info, h.addralign) }

  function SectionsOf(shs: seq<RawShdr>): (s: seq<Shdr>)
    ensures |s| == |shs| && forall i :: 0 <= i < |s| ==> s[i] == ParsedSection(shs[i])
  {
    seq(|shs|, i requires 0 <= i < |shs| => ParsedSection(shs[i]))
  }

  /** SHF_ALLOC is bit 1. */
  predicate IsAlloc(h: RawShdr) { h.flags / 2 % 2 == 1 }

  predicate InRange(h: RawShdr, size: nat) { h.offset + h.size <= size }

  lemma AllocSeen(h: RawShdr)
    ensures Alloc(ParsedSection(h)) <==> IsAlloc(h)
  {
    BitIs(h.flags, 1);
    assert Pow2(1) == 2 * Pow2(0);
  }

  lemma ModuleSeen(file: seq<byte>, h: RawEhdr, shs: seq<RawShdr>)
    requires HoldsModule(file, h, shs)
    ensures HeaderOk(file) <==> IsModule(h, |file|)
    ensures HeaderOk(file) ==> Sections(file) == SectionsOf(shs)
  {
    hide ParseEhdr, ParseShdr, RawEhdr.Bytes, RawShdr.Bytes;
    EhdrReads(file, h);
    if h.shoff <= |file| {
      CountFits(file, h, shs);
    }
    if HeaderOk(file) {
      forall i | 0 <= i < |shs|
        ensures Sections(file)[i] == ParsedSection(shs[i])
      {
        ShdrReads(file, h.shoff + 64 * i, shs[i]);
      }
    }
  }

  lemma CountFits(file: seq<byte>, h: RawEhdr, shs: seq<RawShdr>)
    requires HoldsModule(file, h, shs) && h.shoff <= |file|
    ensures h.shnum <= (|file| - h.shoff) / 64
  {
    if |shs| > 0 {
      assert Written(file, h.shoff + 64 * (|shs| - 1), shs[|shs| - 1].Bytes());
    }
  }

  // ----- symbols

  /** The first section of type SYMTAB. */
  ghost predicate IsSymtab(shs: seq<RawShdr>, k: nat) {
    k < |shs| && shs[k].stype == 2 && forall j :: 0 <= j < k ==> shs[j].stype != 2
  }

  lemma {:induction false} SymtabSeen(shs: seq<RawShdr>, from: nat)
    requires from <= |shs|
    ensures match FirstSymtab(SectionsOf(shs), from)
      case None => forall j :: from <= j < |shs| ==> shs[j].stype != 2
      case Some(k) => from <= k < |shs| && shs[k].stype == 2 && forall j :: from <= j < k ==> shs[j].stype != 2
    decreases |shs| - from
  {
    if from < |shs| { SymtabSeen(shs, from + 1); }
  }

  /** The value `s` of symbol `y`: for SHN_UNDEF (0) the kernel's address for its name, which must be known; for
      SHN_ABS (0xFFF1) the value itself; otherwise the address of a loaded section plus the value. */
  ghost predicate SymbolIs(file: seq<byte>, shs: seq<RawShdr>, base: nat, ksym: seq<byte> -> nat, strings: RawShdr, y: RawSym, s: nat) {
    && y.name < strings.size
    && if y.shndx == 0 then exists name :: NameAt(file, strings.offset + y.name, name) && s == ksym(name) && s != 0
       else if y.shndx == 0xFFF1 then s == y.value
       else y.shndx < |shs| && IsAlloc(shs[y.shndx]) && s == (base + Place(SectionsOf(shs), y.shndx) + y.value) % TWO64
  }

  lemma SymbolSeen(c: Ctx, shs: seq<RawShdr>, strings: RawShdr, y: RawSym)
    requires c.shdrs == SectionsOf(shs) && c.strtab == ParsedSection(strings) && InRange(strings, |c.file|)
    ensures match SymValue(c, Sym(y.name, y.shndx, y.value))
      case Some(s) => SymbolIs(c.file, shs, c.base, c.ksym, strings, y, s)
      case None => forall s :: !SymbolIs(c.file, shs, c.base, c.ksym, strings, y, s)
  {
    hide CString, Place;
    if y.shndx < |shs| { AllocSeen(shs[y.shndx]); }
    if y.name < strings.size && y.shndx == 0 {
      var off := strings.offset + y.name;
      NameFound(c.file, off);
      forall name | NameAt(c.file, off, name)
        ensures name == CString(c.file, off)
      {
        NameUnique(c.file, off, name, CString(c.file, off));
      }
    }
  }

  // ----- relocation entries

  predicate KnownKind(kind: nat) { kind == 0 || kind == 1 || kind == 2 || kind == 4 || kind == 10 || kind == 11 }

  /** How many bytes an entry patches. */
  function FieldWidth(kind: nat): nat { if kind == 0 then 0 else if kind == 1 then 8 else 4 }

  /** What the loader accepts: a known kind whose field lies in its section. */
  predicate FitsTarget(r: RawRela, target: RawShdr) { KnownKind(r.kind) && (r.kind != 0 ==> r.offset + FieldWidth(r.kind) <= target.size) }

  /** R_X86_64_64 (1) holds S + A in 8 bytes; PC32 (2) and PLT32 (4) hold S + A - P, 32 (10) and 32S (11) hold
      S + A in 4 bytes. `at` is the place of the field in the image and `base` the address of the image. */
  ghost predicate FieldIs(image: seq<byte>, base: nat, at: nat, r: RawRela, s: nat) {
    && (r.kind == 1 ==> at + 8 <= |image| && FromLe(image[at..at + 8]) == (s + r.addend) % TWO64)
    && (r.kind == 2 || r.kind == 4 ==> at + 4 <= |image| && FromLe(image[at..at + 4]) == (s + r.addend - (base + at)) % TWO32)
    && (r.kind == 10 || r.kind == 11 ==> at + 4 <= |image| && FromLe(image[at..at + 4]) == (s + r.addend) % TWO32)
  }

  lemma SignedAddend(a: int)
    requires -(TWO64 / 2) <= a < TWO64 / 2
    ensures Signed(a % TWO64) == a
  {
    if a < 0 { assert a % TWO64 == a + TWO64; }
  }

  lemma FieldSeen(c: Ctx, image: seq<byte>, t: nat, r: RawRela)
    requires c.Ok() && t < |c.shdrs| && r.Ok() && FieldHolds(c, image, t, Rela(r.offset, r.sym, r.kind, r.addend % TWO64))
    requires KnownKind(r.kind)
    ensures r.sym < c.NumSyms() && SymValue(c, c.SymAt(r.sym)).Some?
    ensures FieldIs(image, c.base, Place(c.shdrs, t) + r.offset, r, SymValue(c, c.SymAt(r.sym)).value)
  {
    hide Place, SymValue, ParseSym, FromLe, Aligned, Placeable, SmallIndices;
    SignedAddend(r.addend);
  }

  lemma EntrySeen(c: Ctx, shs: seq<RawShdr>, t: nat, r: RawRela)
    requires c.Ok() && c.shdrs == SectionsOf(shs) && t < |shs| && r.Ok()
    ensures Resolve(c, t, Rela(r.offset, r.sym, r.kind, r.addend % TWO64)).Bad? <==>
      r.sym >= c.NumSyms() || SymValue(c, c.SymAt(r.sym)).None? || !FitsTarget(r, shs[t])
  {
    hide Place, SymValue, ParseSym, ToLe, Calculation, Aligned, Placeable, SmallIndices;
  }

  // ----- the module

  /** Symbol `n` of the symbol table `symtab`, and entry `j` of section `i`, as they stand in the file. */
  ghost predicate SymbolWritten(file: seq<byte>, symtab: RawShdr, n: nat, y: RawSym) {
    n < symtab.size / 24 && y.Ok() && Written(file, symtab.offset + 24 * n, y.Bytes())
  }

  ghost predicate EntryWritten(file: seq<byte>, rela: RawShdr, j: nat, r: RawRela) {
    j < rela.size / 24 && r.Ok() && Written(file, rela.offset + 24 * j, r.Bytes())
  }

  lemma SymAtIs(c: Ctx, symtab: RawShdr, n: nat, y: RawSym)
    requires c.symtab == ParsedSection(symtab) && InRange(symtab, |c.file|) && SymbolWritten(c.file, symtab, n, y)
    ensures n < c.NumSyms() && c.SymAt(n) == Sym(y.name, y.shndx, y.value)
  {
    hide ParseSym, RawSym.Bytes;
    SymReads(c.file, symtab.offset + 24 * n, y);
  }

  lemma RelaAtIs(c: Ctx, rela: RawShdr, j: nat, r: RawRela)
    requires InRange(rela, |c.file|) && EntryWritten(c.file, rela, j, r)
    ensures RelaAt(c, ParsedSection(rela), j) == Rela(r.offset, r.sym, r.kind, r.addend % TWO64)
  {
    hide ParseRela, RawRela.Bytes;
    RelaReads(c.file, rela.offset + 24 * j, r);
  }

  /** An accepted module has a symbol table with its strings in the file. */
  lemma TablesSeen(file: seq<byte>, h: RawEhdr, shs: seq<RawShdr>, base: nat, ksym: seq<byte> -> nat)
    returns (k: nat)
    requires HoldsModule(file, h, shs) && Acceptable(file)
    ensures IsSymtab(shs, k) && InRange(shs[k], |file|) && shs[k].link < |shs|
    ensures shs[shs[k].link].stype == 3 && InRange(shs[shs[k].link], |file|)
    ensures Sections(file) == SectionsOf(shs)
    ensures Context(file, base, ksym) == Ctx(file, SectionsOf(shs), base, ParsedSection(shs[k]), ParsedSection(shs[shs[k].link]), ksym)
  {
    hide TotalSize, Placeable, HeaderOk, Sections;
    ModuleSeen(file, h, shs);
    SymtabSeen(shs, 0);
    k := FirstSymtab(SectionsOf(shs), 0).value;
  }

  /** In the image of a module with disjoint fields: every entry `r` of every relocation section of a loaded
      section is of a known kind, its field lies in the section, its symbol `y` has a value, and the field holds
      what its kind asks for. */
  lemma LoadedEntry(image: seq<byte>, file: seq<byte>, h: RawEhdr, shs: seq<RawShdr>, base: nat, ksym: seq<byte> -> nat,
                    k: nat, i: nat, j: nat, r: RawRela, y: RawSym) returns (s: nat)
    requires HoldsModule(file, h, shs) && Accepts(file, base, ksym) && IsImage(image, file, base, ksym) && DisjointFields(file, base, ksym)
    requires Aligned(SectionsOf(shs)) && SmallIndices(file, SectionsOf(shs)) && IsSymtab(shs, k)
    requires i < |shs| && shs[i].stype == 4 && shs[i].info < |shs| && IsAlloc(shs[shs[i].info])
    requires InRange(shs[i], |file|) && EntryWritten(file, shs[i], j, r)
    requires InRange(shs[k], |file|) && SymbolWritten(file, shs[k], r.sym, y)
    ensures shs[k].link < |shs| && SymbolIs(file, shs, base, ksym, shs[shs[k].link], y, s)
    ensures FitsTarget(r, shs[shs[i].info]) && FieldIs(image, base, Place(SectionsOf(shs), shs[i].info) + r.offset, r, s)
  {
    hide Place, SymValue, TotalSize, HeaderOk, Sections, Run, Aligned, Placeable, SmallIndices, Resolve, FieldHolds, FieldIs,
      SymbolIs, IsImage, DisjointFields, IsAlloc, Alloc, FitsTarget, RelaAt, Context, HoldsModule, Relocates;
    var k' := TablesSeen(file, h, shs, base, ksym);
    assert k' == k;
    var c := Context(file, base, ksym);
    ContextOk(file, base, ksym);
    var t := shs[i].info;
    AllocSeen(shs[t]);
    assert Relocates(Sections(file), i) by { RelocatesSeen(shs, i); }
    LoadedFields(image, file, base, ksym, i, j);
    RelaAtIs(c, shs[i], j, r);
    SymAtIs(c, shs[k], r.sym, y);
    RunAccepts(c, i, j);
    EntrySeen(c, shs, t, r);
    assert FitsTarget(r, shs[t]);
    KnownFits(r, shs[t]);
    FieldSeen(c, image, t, r);
    SymbolSeen(c, shs, shs[shs[k].link], y);
    s := SymValue(c, c.SymAt(r.sym)).value;
  }

  /** And every byte of a loaded section that no entry patches is zero in a section of type NOBITS (8), and that of
      the file otherwise. `at` is the place of the section. */
  lemma LoadedByte(image: seq<byte>, file: seq<byte>, h: RawEhdr, shs: seq<RawShdr>, base: nat, ksym: seq<byte> -> nat, i: nat, x: nat)
    requires HoldsModule(file, h, shs) && Accepts(file, base, ksym) && IsImage(image, file, base, ksym) && DisjointFields(file, base, ksym)
    requires Aligned(SectionsOf(shs)) && SmallIndices(file, SectionsOf(shs))
    requires i < |shs| && IsAlloc(shs[i]) && x < shs[i].size
    requires forall p :: p in Run(Context(file, base, ksym), |Sections(file)|).patches ==> !p.Touches(Place(SectionsOf(shs), i) + x)
    ensures var at := Place(SectionsOf(shs), i);
      && at + x < |image| && (shs[i].stype != 8 ==> shs[i].offset + x < |file|)
      && image[at + x] == if shs[i].stype == 8 then 0 else file[shs[i].offset + x]
  {
    hide Place, Run, TotalSize, HeaderOk, Sections, Aligned, SmallIndices, IsImage, DisjointFields, Context, HoldsModule, Placed;
    var k := TablesSeen(file, h, shs, base, ksym);
    AllocSeen(shs[i]);
    LoadedRest(image, file, base, ksym, i, Place(SectionsOf(shs), i) + x);
  }

  lemma KnownFits(r: RawRela, target: RawShdr)
    requires FitsTarget(r, target)
    ensures KnownKind(r.kind)
  {
  }

  lemma RelocatesSeen(shs: seq<RawShdr>, i: nat)
    requires i < |shs| && shs[i].stype == 4 && shs[i].info < |shs| && Alloc(ParsedSection(shs[shs[i].info]))
    ensures Relocates(SectionsOf(shs), i)
  {
    hide Alloc;
  }

  lemma ContextOk(file: seq<byte>, base: nat, ksym: seq<byte> -> nat)
    requires Accepts(file, base, ksym) && Aligned(Sections(file)) && SmallIndices(file, Sections(file))
    ensures Context(file, base, ksym).Ok() && Context(file, base, ksym).shdrs == Sections(file)
    ensures Run(Context(file, base, ksym), |Sections(file)|).Done?
  {
    hide Run, Sections, TotalSize, HeaderOk, Aligned, Placeable, SmallIndices;
  }

  /** No entry of a module whose relocations run through is bad. */
  lemma RunAccepts(c: Ctx, i: nat, j: nat)
    requires c.Ok() && Run(c, |c.shdrs|).Done? && i < |c.shdrs| && c.shdrs[i].stype == SHT_RELA
    requires c.shdrs[i].info < |c.shdrs| && Alloc(c.shdrs[c.shdrs[i].info]) && j < c.shdrs[i].size / RELA_SIZE
    ensures RelaOk(c, c.shdrs[i]) && !Resolve(c, c.shdrs[i].info, RelaAt(c, c.shdrs[i], j)).Bad?
  {
    hide Resolve, RelaAt, Run, EntriesRun, Aligned, Placeable, SmallIndices, Alloc;
    RunDone(c, |c.shdrs|);
    assert SectionRun(c, c.shdrs[i]).Done?;
    EntriesDone(c, c.shdrs[i], c.shdrs[i].size / RELA_SIZE);
  }

  // ----- exactly the modules that are accepted

  /** Entry `j` of section `i`, however it was written, has a symbol with a value and fits its section. */
  ghost predicate EntryOk(file: seq<byte>, shs: seq<RawShdr>, base: nat, ksym: seq<byte> -> nat, k: nat, i: nat, j: nat)
    requires i < |shs| && k < |shs| && shs[k].link < |shs| && shs[i].info < |shs|
  {
    exists r, y, s :: EntryWritten(file, shs[i], j, r) && SymbolWritten(file, shs[k], r.sym, y)
                      && SymbolIs(file, shs, base, ksym, shs[shs[k].link], y, s) && FitsTarget(r, shs[shs[i].info])
  }

  /** A relocation section names a section of the module and lies in the file in whole entries, and if the section
      is loaded, all its entries are in order. */
  ghost predicate RelocationsOk(file: seq<byte>, shs: seq<RawShdr>, base: nat, ksym: seq<byte> -> nat, k: nat, i: nat)
    requires i < |shs| && k < |shs| && shs[k].link < |shs|
  {
    && shs[i].info < |shs| && InRange(shs[i], |file|) && shs[i].size % 24 == 0
    && (IsAlloc(shs[shs[i].info]) ==> forall j :: 0 <= j < shs[i].size / 24 ==> EntryOk(file, shs, base, ksym, k, i, j))
  }

  ghost predicate ModuleOk(file: seq<byte>, h: RawEhdr, shs: seq<RawShdr>, base: nat, ksym: seq<byte> -> nat)
    requires h.Ok()
  {
    && IsModule(h, |file|)
    && (forall i :: 0 <= i < |shs| && IsAlloc(shs[i]) && shs[i].stype != 8 ==> InRange(shs[i], |file|))
    && (exists i :: 0 <= i < |shs| && IsAlloc(shs[i]) && shs[i].size > 0)
    && exists k: nat :: IsSymtab(shs, k) && InRange(shs[k], |file|) && shs[k].link < |shs|
                   && shs[shs[k].link].stype == 3 && InRange(shs[shs[k].link], |file|)
                   && forall i :: 0 <= i < |shs| && shs[i].stype == 4 ==> RelocationsOk(file, shs, base, ksym, k, i)
  }

  /** Every 24 bytes are a symbol, and an entry. */
  lemma SomeSymbol(file: seq<byte>, symtab: RawShdr, n: nat) returns (y: RawSym)
    requires InRange(symtab, |file|) && n < symtab.size / 24
    ensures SymbolWritten(file, symtab, n, y)
  {
    hide FromLe, ToLe, Pow256;
    var at := symtab.offset + 24 * n;
    var b := file[at..at + 24];
    Widths();
    FromLeBound(b[0..4]); FromLeBound(b[4..5]); FromLeBound(b[5..6]); FromLeBound(b[6..8]); FromLeBound(b[8..16]); FromLeBound(b[16..24]);
    LeBack(b[0..4]); LeBack(b[4..5]); LeBack(b[5..6]); LeBack(b[6..8]); LeBack(b[8..16]); LeBack(b[16..24]);
    y := RawSym(FromLe(b[0..4]), FromLe(b[4..5]), FromLe(b[5..6]), FromLe(b[6..8]), FromLe(b[8..16]), FromLe(b[16..24]));
    assert b == b[0..4] + b[4..5] + b[5..6] + b[6..8] + b[8..16] + b[16..24];
  }

  lemma SomeEntry(file: seq<byte>, rela: RawShdr, j: nat) returns (r: RawRela)
    requires InRange(rela, |file|) && j < rela.size / 24
    ensures EntryWritten(file, rela, j, r)
  {
    hide FromLe, ToLe, Pow256;
    var at := rela.offset + 24 * j;
    var b := file[at..at + 24];
    Widths();
    FromLeBound(b[0..8]); FromLeBound(b[8..12]); FromLeBound(b[12..16]); FromLeBound(b[16..24]);
    LeBack(b[0..8]); LeBack(b[8..12]); LeBack(b[12..16]); LeBack(b[16..24]);
    var a := FromLe(b[16..24]);
    r := RawRela(FromLe(b[0..8]), FromLe(b[12..16]), FromLe(b[8..12]), Signed(a));
    assert r.addend % TWO64 == a by { SignedBack(a); }
    LeHalves(r.kind, r.sym, 4, 4);
    assert b == b[0..8] + (b[8..12] + b[12..16]) + b[16..24];
  }

  lemma SignedBack(a: nat)
    requires a < TWO64
    ensures Signed(a) % TWO64 == a && -(TWO64 / 2) <= Signed(a) < TWO64 / 2
  {
    if a >= TWO64 / 2 { assert Signed(a) == a - TWO64; }
  }

  lemma EntryOkSeen(c: Ctx, shs: seq<RawShdr>, k: nat, i: nat, j: nat)
    requires c.Ok() && c.shdrs == SectionsOf(shs) && k < |shs| && shs[k].link < |shs| && i < |shs| && shs[i].info < |shs|
    requires c.symtab == ParsedSection(shs[k]) && c.strtab == ParsedSection(shs[shs[k].link])
    requires InRange(shs[k], |c.file|) && InRange(shs[shs[k].link], |c.file|) && InRange(shs[i], |c.file|) && j < shs[i].size / 24
    ensures EntryOk(c.file, shs, c.base, c.ksym, k, i, j) <==> !Resolve(c, shs[i].info, RelaAt(c, ParsedSection(shs[i]), j)).Bad?
  {
    hide Place, SymValue, Aligned, Placeable, SmallIndices, Resolve, SymbolIs, FitsTarget, RelaAt, EntryWritten, SymbolWritten, ParseSym;
    if EntryOk(c.file, shs, c.base, c.ksym, k, i, j) {
      var r, y, s :| EntryWritten(c.file, shs[i], j, r) && SymbolWritten(c.file, shs[k], r.sym, y)
                     && SymbolIs(c.file, shs, c.base, c.ksym, shs[shs[k].link], y, s) && FitsTarget(r, shs[shs[i].info]);
      EntryOks(c, shs, k, i, j, r);
      RelaAtIs(c, shs[i], j, r);
      SymAtIs(c, shs[k], r.sym, y);
      SymbolSeen(c, shs, shs[shs[k].link], y);
      EntrySeen(c, shs, shs[i].info, r);
    }
    if !Resolve(c, shs[i].info, RelaAt(c, ParsedSection(shs[i]), j)).Bad? {
      var r := SomeEntry(c.file, shs[i], j);
      EntryOks(c, shs, k, i, j, r);
      RelaAtIs(c, shs[i], j, r);
      EntrySeen(c, shs, shs[i].info, r);
      var y := SomeSymbol(c.file, shs[k], r.sym);
      SymAtIs(c, shs[k], r.sym, y);
      SymbolSeen(c, shs, shs[shs[k].link], y);
      assert SymbolIs(c.file, shs, c.base, c.ksym, shs[shs[k].link], y, SymValue(c, c.SymAt(r.sym)).value);
    }
  }

  lemma EntryOks(c: Ctx, shs: seq<RawShdr>, k: nat, i: nat, j: nat, r: RawRela)
    requires i < |shs| && EntryWritten(c.file, shs[i], j, r)
    ensures r.Ok()
  {
  }

  lemma RelocationsSeen(c: Ctx, shs: seq<RawShdr>, k: nat, i: nat)
    requires c.Ok() && c.shdrs == SectionsOf(shs) && k < |shs| && shs[k].link < |shs| && i < |shs| && shs[i].stype == 4
    requires c.symtab == ParsedSection(shs[k]) && c.strtab == ParsedSection(shs[shs[k].link])
    requires InRange(shs[k], |c.file|) && InRange(shs[shs[k].link], |c.file|)
    ensures SectionRun(c, c.shdrs[i]).Done? <==> RelocationsOk(c.file, shs, c.base, c.ksym, k, i)
  {
    hide Aligned, Placeable, SmallIndices, Resolve, RelaAt, EntriesRun, EntryOk, Alloc, IsAlloc;
    if RelaOk(c, c.shdrs[i]) {
      AllocSeen(shs[shs[i].info]);
      EntriesDone(c, c.shdrs[i], shs[i].size / 24);
      forall j | 0 <= j < shs[i].size / 24
        ensures EntryOk(c.file, shs, c.base, c.ksym, k, i, j) <==> !Resolve(c, shs[i].info, RelaAt(c, c.shdrs[i], j)).Bad?
      {
        EntryOkSeen(c, shs, k, i, j);
      }
    }
  }

  /** A module is accepted exactly if it is in order in all these respects. */
  lemma AcceptsExactly(file: seq<byte>, h: RawEhdr, shs: seq<RawShdr>, base: nat, ksym: seq<byte> -> nat)
    requires HoldsModule(file, h, shs) && Aligned(SectionsOf(shs)) && SmallIndices(file, SectionsOf(shs))
    ensures Accepts(file, base, ksym) <==> ModuleOk(file, h, shs, base, ksym)
  {
    hide Acceptable, Aligned, SmallIndices, RelocationsOk, IsModule, Written;
    if ModuleOk(file, h, shs, base, ksym) { AcceptableIfOk(file, h, shs, base, ksym); }
    if Acceptable(file) { AcceptedRun(file, h, shs, base, ksym); }
  }

  lemma AcceptedRun(file: seq<byte>, h: RawEhdr, shs: seq<RawShdr>, base: nat, ksym: seq<byte> -> nat)
    requires HoldsModule(file, h, shs) && Aligned(SectionsOf(shs)) && SmallIndices(file, SectionsOf(shs)) && Acceptable(file)
    ensures Accepts(file, base, ksym) <==> ModuleOk(file, h, shs, base, ksym)
  {
    hide Run, HeaderOk, Sections, Aligned, SmallIndices, RelocationsOk, IsModule, Place, Alloc, IsAlloc, Written;
    hide FirstSymtab, SymtabOk, TotalSize;
    ModuleSeen(file, h, shs);
    SizesSeen(file, shs);
    var k := TablesSeen(file, h, shs, base, ksym);
    RunSeen(file, shs, base, ksym, k);
  }

  lemma AcceptableIfOk(file: seq<byte>, h: RawEhdr, shs: seq<RawShdr>, base: nat, ksym: seq<byte> -> nat)
    requires HoldsModule(file, h, shs) && Aligned(SectionsOf(shs)) && ModuleOk(file, h, shs, base, ksym)
    ensures Acceptable(file)
  {
    hide Run, HeaderOk, Sections, Aligned, SmallIndices, RelocationsOk, IsModule, Place, Alloc, IsAlloc, Written;
    ModuleSeen(file, h, shs);
    SizesSeen(file, shs);
    SymtabSeen(shs, 0);
  }

  lemma SizesSeen(file: seq<byte>, shs: seq<RawShdr>)
    requires Aligned(SectionsOf(shs))
    ensures Placeable(SectionsOf(shs), |file|) <==>
      forall i :: 0 <= i < |shs| && IsAlloc(shs[i]) && shs[i].stype != 8 ==> InRange(shs[i], |file|)
    ensures TotalSize(SectionsOf(shs)) > 0 <==> exists i :: 0 <= i < |shs| && IsAlloc(shs[i]) && shs[i].size > 0
  {
    hide Aligned, Offset, Alloc, IsAlloc;
    var s := SectionsOf(shs);
    SizePositive(s, |s|);
    forall i | 0 <= i < |shs|
      ensures Alloc(s[i]) <==> IsAlloc(shs[i])
    {
      AllocSeen(shs[i]);
    }
    assert forall sh :: sh in s <==> exists i :: 0 <= i < |s| && s[i] == sh;
  }

  lemma {:induction false} RunSeen(file: seq<byte>, shs: seq<RawShdr>, base: nat, ksym: seq<byte> -> nat, k: nat)
    requires Aligned(SectionsOf(shs)) && SmallIndices(file, SectionsOf(shs)) && Placeable(SectionsOf(shs), |file|)
    requires IsSymtab(shs, k) && InRange(shs[k], |file|) && shs[k].link < |shs| && InRange(shs[shs[k].link], |file|)
    ensures var c := Ctx(file, SectionsOf(shs), base, ParsedSection(shs[k]), ParsedSection(shs[shs[k].link]), ksym);
      Run(c, |shs|).Done? <==> forall i :: 0 <= i < |shs| && shs[i].stype == 4 ==> RelocationsOk(file, shs, base, ksym, k, i)
  {
    hide Run, Aligned, SmallIndices, Placeable, RelocationsOk, EntriesRun;
    var c := Ctx(file, SectionsOf(shs), base, ParsedSection(shs[k]), ParsedSection(shs[shs[k].link]), ksym);
    RunDone(c, |shs|);
    forall i | 0 <= i < |shs|
      ensures SectionRun(c, c.shdrs[i]).Done? <==> (shs[i].stype == 4 ==> RelocationsOk(file, shs, base, ksym, k, i))
    {
      if shs[i].stype == 4 { RelocationsSeen(c, shs, k, i); }
    }
  }
}
