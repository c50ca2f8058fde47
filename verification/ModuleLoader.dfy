/** The kernel module loader: lays out, copies and relocates a module in a heap block, and gives the
    block back on every failure. */
module ModuleLoader {
  import opened Bytes
  import opened Elf
  import opened ModuleLayout
  import opened Relocations
  import HL = HeapLists
  import KernelHeap = Heap

  /** `sizeof(kernel_module_t)` */
  const MODULE_SIZE := 96

  // ----- word arithmetic

  /** Adding a stored addend to a word, modulo 2^64, adds the signed addend. */
  lemma SumModulo(s: nat, a: nat, p: nat)
    requires a < TWO64
    ensures (s + a) % TWO64 == (s + Signed(a)) % TWO64
    ensures (s + a) % TWO64 % TWO32 == (s + Signed(a)) % TWO32
    ensures (s + a + (TWO64 - p % TWO64)) % TWO64 % TWO32 == (s + Signed(a) - p) % TWO32
  {
    var x := s + Signed(a);
    var k := if a < TWO64 / 2 then 0 else 1;
    assert s + a == x + k * TWO64;
    ModShift(x, k, TWO64);
    ModShift(x, k, TWO64);
    ModOfMod(x + k * TWO64);
    assert x + k * TWO64 == x + (k * TWO32) * TWO32;
    ModShift(x, k * TWO32, TWO32);
    var q := p / TWO64;
    assert p == q * TWO64 + p % TWO64;
    var y := x - p;
    var m := k + q + 1;
    assert s + a + (TWO64 - p % TWO64) == y + m * TWO64;
    ModOfMod(y + m * TWO64);
    assert y + m * TWO64 == y + (m * TWO32) * TWO32;
    ModShift(y, m * TWO32, TWO32);
  }

  lemma ModShift(x: int, k: int, m: nat)
    requires m > 0
    ensures (x + k * m) % m == x % m
  {
    var q, r := x / m, x % m;
    assert x == m * q + r;
    assert x + k * m == m * (q + k) + r;
    ModUniqueInt(x + k * m, m, q + k, r);
  }

  lemma ModUniqueInt(v: int, d: nat, a: int, r: nat)
    requires d > 0 && v == d * a + r && r < d
    ensures v % d == r
  {
    var q, s := v / d, v % d;
    assert d * (a - q) == s - r;
    SmallMultiple(d, a - q);
  }

  lemma SmallMultiple(d: nat, n: int)
    requires 0 - d < d * n < d
    ensures n == 0
  {
  }

  lemma ModOfMod(x: int)
    ensures x % TWO64 % TWO32 == x % TWO32
  {
    var q, r := x / TWO64, x % TWO64;
    assert x == q * TWO64 + r;
    assert x == r + (q * TWO32) * TWO32;
    ModShift(r, q * TWO32, TWO32);
  }

  // ----- relocation

  /** A store of several bytes at once. */
  method Store(image: array<byte>, at: nat, bytes: seq<byte>)
    requires at + |bytes| <= image.Length
    modifies image
    ensures image[..] == Apply(old(image[..]), Patch(at, bytes))
  {
    forall k | at <= k < at + |bytes| {
      image[k] := bytes[k - at];
    }
  }

  /** The value of a symbol as the loader finds it; `ok` is false where it gives up. */
  method FindSymbol(c: Ctx, sym: Sym) returns (ok: bool, value: nat)
    requires c.strtab.offset + c.strtab.size <= |c.file|
    ensures ok <==> SymValue(c, sym).Some?
    ensures ok ==> SymValue(c, sym) == Some(value)
  {
    if sym.name >= c.strtab.size { return false, 0; }
    if sym.shndx == SHN_UNDEF {
      value := c.ksym(CString(c.file, c.strtab.offset + sym.name));
      if value == 0 { return false, 0; }
    } else if sym.shndx == SHN_ABS {
      value := sym.value;
    } else {
      if sym.shndx >= |c.shdrs| || !Alloc(c.shdrs[sym.shndx]) { return false, 0; }
      value := (c.Addr(sym.shndx) + sym.value) % TWO64;
    }
    ok := true;
  }

  /** One relocation entry, applied in place; `ok` is false where the loader gives up. */
  method Relocate(c: Ctx, target: nat, r: Rela, image: array<byte>) returns (ok: bool)
    requires c.Ok() && target < |c.shdrs| && Alloc(c.shdrs[target]) && r.addend < TWO64 && r.sym < INT_END
    requires image.Length == TotalSize(c.shdrs)
    modifies image
    ensures ok <==> !Resolve(c, target, r).Bad?
    ensures Resolve(c, target, r).Nothing? ==> image[..] == old(image[..])
    ensures Resolve(c, target, r).Write? ==> Inside(Resolve(c, target, r).patch, image.Length)
    ensures Resolve(c, target, r).Write? ==> image[..] == Apply(old(image[..]), Resolve(c, target, r).patch)
  {
    hide ToLe, Place, TotalSize, Pow256, SymValue, ParseSym, Aligned, Placeable, SmallIndices, Resolve, Calculation, Apply;
    if r.sym >= c.NumSyms() {
      NoSymbol(c, target, r);
      return false;
    }
    var symVal;
    ok, symVal := FindSymbol(c, c.SymAt(r.sym));
    if !ok {
      NoSymbol(c, target, r);
      return;
    }
    ResolveIs(c, target, r, symVal);
    var size := c.shdrs[target].size;
    var patchAddr := c.Addr(target) + r.offset;
    var patchSize := if r.kind == R_64 then 8 else 4;
    if r.kind != R_NONE && (r.offset > size || patchSize > size - r.offset) { return false; }
    if Resolve(c, target, r).Write? {
      PatchInTarget(c, target, r);
    }
    if r.kind == R_NONE {
    } else if r.kind == R_64 {
      Store(image, Place(c.shdrs, target) + r.offset, ToLe((symVal + r.addend) % TWO64, 8));
    } else if r.kind == R_PC32 || r.kind == R_PLT32 {
      Store(image, Place(c.shdrs, target) + r.offset, ToLe((symVal + r.addend + (TWO64 - patchAddr % TWO64)) % TWO64 % TWO32, 4));
    } else if r.kind == R_32 || r.kind == R_32S {
      Store(image, Place(c.shdrs, target) + r.offset, ToLe((symVal + r.addend) % TWO64 % TWO32, 4));
    } else {
      return false;
    }
  }

  lemma NoSymbol(c: Ctx, target: nat, r: Rela)
    requires c.Ok() && target < |c.shdrs| && (r.sym >= c.NumSyms() || SymValue(c, c.SymAt(r.sym)).None?)
    ensures Resolve(c, target, r).Bad?
  {
  }

  /** The cases of the loader's switch, in its own wrapping arithmetic, are what the ABI asks for. */
  lemma ResolveIs(c: Ctx, target: nat, r: Rela, symVal: nat)
    requires c.Ok() && target < |c.shdrs| && r.addend < TWO64 && r.sym < c.NumSyms() && SymValue(c, c.SymAt(r.sym)) == Some(symVal)
    ensures var at, patchAddr := Place(c.shdrs, target) + r.offset, c.Addr(target) + r.offset;
      Resolve(c, target, r) ==
      if r.kind == R_NONE then Nothing
      else if r.offset + Width(r.kind) > c.shdrs[target].size then Bad
      else if r.kind == R_64 then Write(Patch(at, ToLe((symVal + r.addend) % TWO64, 8)))
      else if r.kind == R_PC32 || r.kind == R_PLT32 then
        Write(Patch(at, ToLe((symVal + r.addend + (TWO64 - patchAddr % TWO64)) % TWO64 % TWO32, 4)))
      else if r.kind == R_32 || r.kind == R_32S then Write(Patch(at, ToLe((symVal + r.addend) % TWO64 % TWO32, 4)))
      else Bad
  {
    hide ToLe, Place, TotalSize, Pow256, SymValue, ParseSym, Aligned, Placeable, SmallIndices;
    SumModulo(symVal, r.addend, c.Addr(target) + r.offset);
    Pow256Word();
  }

  /** The entry loop of one relocation section. */
  method RelocateSection(c: Ctx, sh: Shdr, image: array<byte>, ghost image0: seq<byte>, ghost before: Outcome) returns (ok: bool)
    requires c.Ok() && sh in c.shdrs && sh.stype == SHT_RELA && RelaOk(c, sh) && Alloc(c.shdrs[sh.info])
    requires image.Length == |image0| == TotalSize(c.shdrs) && before.Done? && Applied(image[..], image0, before)
    modifies image
    ensures ok <==> EntriesRun(c, sh, sh.size / RELA_SIZE).Done?
    ensures ok ==> Applied(image[..], image0, before.Then(EntriesRun(c, sh, sh.size / RELA_SIZE)))
  {
    hide Resolve, TotalSize, RelaAt, ApplyAll, Aligned, Placeable, SmallIndices, Applied;
    assert before.patches + [] == before.patches;
    for j := 0 to sh.size / RELA_SIZE
      invariant EntriesRun(c, sh, j).Done?
      invariant Applied(image[..], image0, before.Then(EntriesRun(c, sh, j)))
    {
      ok := RelocateEntry(c, sh, j, image, image0, before.Then(EntriesRun(c, sh, j)));
      if !ok {
        EntriesFail(c, sh, j + 1, sh.size / RELA_SIZE);
        return;
      }
      ThenAssoc(before, EntriesRun(c, sh, j), FromResolved(Resolve(c, sh.info, RelaAt(c, sh, j))));
    }
    ok := true;
  }

  lemma ThenAssoc(a: Outcome, b: Outcome, o: Outcome)
    ensures a.Then(b).Then(o) == a.Then(b.Then(o))
  {
    if a.Done? && b.Done? && o.Done? { assert a.patches + b.patches + o.patches == a.patches + (b.patches + o.patches); }
  }

  /** One round of that loop. */
  method RelocateEntry(c: Ctx, sh: Shdr, j: nat, image: array<byte>, ghost image0: seq<byte>, ghost before: Outcome) returns (ok: bool)
    requires c.Ok() && sh in c.shdrs && sh.stype == SHT_RELA && RelaOk(c, sh) && Alloc(c.shdrs[sh.info]) && j < sh.size / RELA_SIZE
    requires image.Length == |image0| == TotalSize(c.shdrs) && Applied(image[..], image0, before)
    modifies image
    ensures ok <==> FromResolved(Resolve(c, sh.info, RelaAt(c, sh, j))).Done?
    ensures ok ==> Applied(image[..], image0, before.Then(FromResolved(Resolve(c, sh.info, RelaAt(c, sh, j)))))
  {
    hide Resolve, TotalSize, RelaAt, ApplyAll, Apply, Aligned, Placeable, SmallIndices;
    var r := RelaAt(c, sh, j);
    AddendWord(c, sh, j);
    SymbolIndex(c, sh, j);
    ok := Relocate(c, sh.info, r, image);
    if ok {
      AppliedNext(image0, before, Resolve(c, sh.info, r));
    }
  }

  /** The image is the initial one with all patches so far applied in order. */
  ghost predicate Applied(image: seq<byte>, image0: seq<byte>, o: Outcome) {
    o.Done? && (forall p :: p in o.patches ==> Inside(p, |image0|)) && image == ApplyAll(image0, o.patches)
  }

  lemma AppliedNone(image0: seq<byte>)
    ensures Applied(image0, image0, Done([]))
  {
  }

  lemma AppliedNext(image0: seq<byte>, o: Outcome, r: Resolved)
    requires o.Done? && (forall p :: p in o.patches ==> Inside(p, |image0|)) && !r.Bad?
    requires r.Write? ==> Inside(r.patch, |image0|)
    ensures var image := ApplyAll(image0, o.patches);
      Applied(if r.Write? then Apply(image, r.patch) else image, image0, o.Then(FromResolved(r)))
  {
    if r.Write? {
      OnePatchMore(image0, o.patches, r.patch);
    } else {
      assert o.patches + [] == o.patches;
    }
  }

  lemma OnePatchMore(image0: seq<byte>, ps: seq<Patch>, q: Patch)
    requires (forall p :: p in ps ==> Inside(p, |image0|)) && Inside(q, |image0|)
    ensures (forall p :: p in ps + [q] ==> Inside(p, |image0|)) && |ApplyAll(image0, ps)| == |image0|
    ensures ApplyAll(image0, ps + [q]) == Apply(ApplyAll(image0, ps), q)
  {
    hide Apply;
    assert (ps + [q])[..|ps|] == ps && (ps + [q])[|ps|] == q;
  }

  lemma SymbolIndex(c: Ctx, sh: Shdr, j: nat)
    requires c.Ok() && sh in c.shdrs && sh.stype == SHT_RELA && sh.offset + RELA_SIZE * (j + 1) <= |c.file|
    ensures RelaAt(c, sh, j).sym < INT_END
  {
    hide ParseRela;
    assert SmallIndex(c.file, sh, j);
  }

  lemma AddendWord(c: Ctx, sh: Shdr, j: nat)
    requires sh.offset + RELA_SIZE * (j + 1) <= |c.file|
    ensures RelaAt(c, sh, j).addend < TWO64
  {
    var off := sh.offset + RELA_SIZE * j + 16;
    FromLeBound(c.file[off..off + 8]);
    Pow256Word();
  }

  lemma {:induction false} EntriesFail(c: Ctx, sh: Shdr, m: nat, n: nat)
    requires c.Ok() && sh.info < |c.shdrs| && m <= n && sh.offset + RELA_SIZE * n <= |c.file|
    requires EntriesRun(c, sh, m).Failed?
    ensures EntriesRun(c, sh, n).Failed?
  {
    hide Resolve, RelaAt;
    if m < n { EntriesFail(c, sh, m, n - 1); }
  }

  /** The loop over the relocation sections; `ok` is false where the loader gives up. */
  method RelocateAll(c: Ctx, image: array<byte>) returns (ok: bool)
    requires c.Ok() && image.Length == TotalSize(c.shdrs)
    modifies image
    ensures ok <==> Run(c, |c.shdrs|).Done?
    ensures ok ==> Applied(image[..], old(image[..]), Run(c, |c.shdrs|))
  {
    hide EntriesRun, TotalSize, Aligned, Placeable, SmallIndices, ApplyAll, Applied;
    ghost var image0 := image[..];
    AppliedNone(image0);
    for i := 0 to |c.shdrs|
      invariant Applied(image[..], image0, Run(c, i))
    {
      var sh := c.shdrs[i];
      ghost var before := Run(c, i);
      AppliedIs(image[..], image0, before);
      if sh.stype == SHT_RELA {
        if sh.info >= |c.shdrs| || sh.offset > |c.file| || sh.size > |c.file| - sh.offset || sh.size % RELA_SIZE != 0 {
          RunFail(c, i + 1, |c.shdrs|);
          return false;
        }
        if Alloc(c.shdrs[sh.info]) {
          ok := RelocateSection(c, sh, image, image0, before);
          if !ok {
            RunFail(c, i + 1, |c.shdrs|);
            return;
          }
        }
      }
      if SectionRun(c, sh) == Done([]) {
        assert before.patches + [] == before.patches;
      }
    }
    AppliedIs(image[..], image0, Run(c, |c.shdrs|));
    ok := true;
  }

  lemma {:induction false} RunFail(c: Ctx, m: nat, n: nat)
    requires c.Ok() && m <= n <= |c.shdrs| && Run(c, m).Failed?
    ensures Run(c, n).Failed?
  {
    if m < n { RunFail(c, m, n - 1); }
  }

  // ----- loading

  /** The checks of `elf_validate`. */
  predicate HeaderOk(file: seq<byte>) {
    && |file| >= EHDR_SIZE && Magic(file)
    && var h := ParseEhdr(file);
       && h.elfClass == ELFCLASS64 && h.machine == EM_X86_64 && h.etype == ET_REL
       && h.shentsize == SHDR_SIZE && h.shoff <= |file| && h.shnum <= (|file| - h.shoff) / SHDR_SIZE
  }

  function Sections(file: seq<byte>): seq<Shdr>
    requires HeaderOk(file)
  {
    var h := ParseEhdr(file);
    seq(h.shnum, i requires 0 <= i < h.shnum => ParseShdr(file, h.shoff + SHDR_SIZE * i))
  }

  function FirstSymtab(shdrs: seq<Shdr>, from: nat): Option<nat>
    requires from <= |shdrs|
    decreases |shdrs| - from
  {
    if from == |shdrs| then None else if shdrs[from].stype == SHT_SYMTAB then Some(from) else FirstSymtab(shdrs, from + 1)
  }

  predicate RangeOk(sh: Shdr, fileSize: nat) { sh.offset <= fileSize && sh.size <= fileSize - sh.offset }

  predicate SymtabOk(shdrs: seq<Shdr>, fileSize: nat, k: nat)
    requires k < |shdrs|
  {
    && shdrs[k].link < |shdrs| && RangeOk(shdrs[k], fileSize)
    && shdrs[shdrs[k].link].stype == SHT_STRTAB && RangeOk(shdrs[shdrs[k].link], fileSize)
  }

  /** Everything a module needs but the success of its relocations. */
  ghost predicate Acceptable(file: seq<byte>) {
    && HeaderOk(file) && Placeable(Sections(file), |file|) && TotalSize(Sections(file)) > 0
    && FirstSymtab(Sections(file), 0).Some?
    && FirstSymtab(Sections(file), 0).value < |Sections(file)|
    && SymtabOk(Sections(file), |file|, FirstSymtab(Sections(file), 0).value)
  }

  ghost function Context(file: seq<byte>, base: nat, ksym: seq<byte> -> nat): Ctx
    requires Acceptable(file)
  {
    var s := Sections(file);
    var symtab := s[FirstSymtab(s, 0).value];
    Ctx(file, s, base, symtab, s[symtab.link], ksym)
  }

  /** The module can be loaded at `base`. */
  ghost predicate Accepts(file: seq<byte>, base: nat, ksym: seq<byte> -> nat) {
    Acceptable(file) && Run(Context(file, base, ksym), |Sections(file)|).Done?
  }

  /** The image is that of the module: sections in place, then all patches in order. */
  ghost predicate IsImage(image: seq<byte>, file: seq<byte>, base: nat, ksym: seq<byte> -> nat)
    requires Accepts(file, base, ksym)
  {
    exists image0: seq<byte> ::
      |image0| == TotalSize(Sections(file)) && Placed(image0, file, Sections(file), |Sections(file)|)
      && Applied(image, image0, Run(Context(file, base, ksym), |Sections(file)|))
  }

  /** Whether a module can be loaded does not depend on where. */
  lemma AcceptsAnyBase(file: seq<byte>, b: nat, b': nat, ksym: seq<byte> -> nat)
    requires HeaderOk(file) ==> Aligned(Sections(file)) && SmallIndices(file, Sections(file))
    ensures Accepts(file, b, ksym) <==> Accepts(file, b', ksym)
  {
    hide Run, HeaderOk, Sections, TotalSize, FirstSymtab, SmallIndices, Aligned, Placeable;
    if Acceptable(file) {
      var c := Context(file, b, ksym);
      assert c.(base := b') == Context(file, b', ksym);
      RunAnyBase(c, b', |Sections(file)|);
    }
  }

  /** The module cannot be loaded anywhere. */
  ghost predicate Unloadable(file: seq<byte>, ksym: seq<byte> -> nat) {
    forall b: nat :: !Accepts(file, b, ksym)
  }

  lemma NeverAccepted(file: seq<byte>, base: nat, ksym: seq<byte> -> nat)
    requires HeaderOk(file) ==> Aligned(Sections(file)) && SmallIndices(file, Sections(file))
    requires !Accepts(file, base, ksym)
    ensures Unloadable(file, ksym)
  {
    hide Accepts, Aligned, SmallIndices, HeaderOk;
    forall b: nat
      ensures !Accepts(file, b, ksym)
    {
      AcceptsAnyBase(file, base, b, ksym);
    }
  }

  /** The patches of a module touch pairwise different bytes. */
  ghost predicate DisjointFields(file: seq<byte>, base: nat, ksym: seq<byte> -> nat)
    requires Accepts(file, base, ksym)
  {
    PairwiseDisjoint(Run(Context(file, base, ksym), |Sections(file)|).patches)
  }

  /** A relocation section of a loaded section. */
  predicate Relocates(shdrs: seq<Shdr>, i: nat) {
    i < |shdrs| && shdrs[i].stype == SHT_RELA && shdrs[i].info < |shdrs| && Alloc(shdrs[shdrs[i].info])
  }

  /** In the image of a module with disjoint fields, every relocation entry has its field relocated. */
  lemma LoadedFields(image: seq<byte>, file: seq<byte>, base: nat, ksym: seq<byte> -> nat, i: nat, j: nat)
    requires Accepts(file, base, ksym) && IsImage(image, file, base, ksym) && DisjointFields(file, base, ksym)
    requires Aligned(Sections(file)) && SmallIndices(file, Sections(file))
    requires Relocates(Sections(file), i) && j < Sections(file)[i].size / RELA_SIZE
    ensures var c := Context(file, base, ksym);
      RelaOk(c, c.shdrs[i]) && FieldHolds(c, image, c.shdrs[i].info, RelaAt(c, c.shdrs[i], j))
  {
    hide Run, HeaderOk, Sections, TotalSize, FirstSymtab, SmallIndices, Aligned, Placeable, Placed, FieldHolds, PairwiseDisjoint, RelaAt;
    var c := Context(file, base, ksym);
    var image0: seq<byte> :| |image0| == TotalSize(c.shdrs) && Applied(image, image0, Run(c, |c.shdrs|));
    var ps := Run(c, |c.shdrs|).patches;
    RelocatedField(c, image0, ps, i, j);
    AppliedIs(image, image0, Run(c, |c.shdrs|));
  }

  lemma AppliedIs(image: seq<byte>, image0: seq<byte>, o: Outcome)
    requires Applied(image, image0, o)
    ensures o.Done? && (forall p :: p in o.patches ==> Inside(p, |image0|)) && image == ApplyAll(image0, o.patches)
  {
  }

  /** And every byte of a loaded section that no relocation touches is that of the file, or zero. */
  lemma LoadedRest(image: seq<byte>, file: seq<byte>, base: nat, ksym: seq<byte> -> nat, i: nat, k: nat)
    requires Accepts(file, base, ksym) && IsImage(image, file, base, ksym) && DisjointFields(file, base, ksym)
    requires Aligned(Sections(file)) && SmallIndices(file, Sections(file))
    requires i < |Sections(file)| && Alloc(Sections(file)[i])
    requires Place(Sections(file), i) <= k < Place(Sections(file), i) + Sections(file)[i].size
    requires forall p :: p in Run(Context(file, base, ksym), |Sections(file)|).patches ==> !p.Touches(k)
    ensures k < |image| && InFile(Sections(file)[i], |file|)
    ensures image[k] == SectionByte(file, Sections(file)[i], k - Place(Sections(file), i))
  {
    hide Run, HeaderOk, Sections, TotalSize, FirstSymtab, SmallIndices, Aligned, Placed, PairwiseDisjoint, SectionByte, Place;
    var c := Context(file, base, ksym);
    PlacesFit(c.shdrs, i, i);
    assert c.shdrs[i] in c.shdrs;
    var image0: seq<byte> :| |image0| == TotalSize(c.shdrs) && Placed(image0, file, c.shdrs, |c.shdrs|) && Applied(image, image0, Run(c, |c.shdrs|));
    LoadedBytes(c, image0, Run(c, |c.shdrs|).patches, k);
  }

  method FindSymtab(shdrs: seq<Shdr>) returns (k: Option<nat>)
    ensures k == FirstSymtab(shdrs, 0) && (k.Some? ==> k.value < |shdrs|)
  {
    for i := 0 to |shdrs|
      invariant FirstSymtab(shdrs, 0) == FirstSymtab(shdrs, i)
    {
      if shdrs[i].stype == SHT_SYMTAB { return Some(i); }
    }
    k := None;
  }

  datatype Status = NotLoaded | Halted | Loaded

  /** Everything between the allocation of the image and that of the descriptor. */
  method BuildImage(file: seq<byte>, base: nat, image: array<byte>, ksym: seq<byte> -> nat) returns (ok: bool)
    requires HeaderOk(file) && Aligned(Sections(file)) && Placeable(Sections(file), |file|) && SmallIndices(file, Sections(file))
    requires image.Length == TotalSize(Sections(file)) > 0
    modifies image
    ensures ok <==> Accepts(file, base, ksym)
    ensures ok ==> IsImage(image[..], file, base, ksym)
  {
    hide Run, TotalSize, Sections, HeaderOk, SmallIndices, Aligned, Placeable, FirstSymtab, Placed;
    var shdrs := Sections(file);
    var addrs, end := PlacePass(file, shdrs, base, image);
    var k := FindSymtab(shdrs);
    if k.None? { return false; }
    var symtab := shdrs[k.value];
    if symtab.link >= |shdrs| || symtab.offset > |file| || symtab.size > |file| - symtab.offset { return false; }
    var strtab := shdrs[symtab.link];
    if strtab.stype != SHT_STRTAB || strtab.offset > |file| || strtab.size > |file| - strtab.offset { return false; }
    var c := Ctx(file, shdrs, base, symtab, strtab, ksym);
    ghost var image0 := image[..];
    assert c == Context(file, base, ksym);
    ok := RelocateAll(c, image);
    if ok {
      assert |image0| == TotalSize(shdrs) && Placed(image0, file, shdrs, |shdrs|) && Applied(image[..], image0, Run(c, |shdrs|));
    }
  }

  /** Room in the address space for `n` more bytes of heap. */
  ghost predicate Room(heap: KernelHeap.Heap, n: nat)
    reads heap
  {
    heap.heapEnd + n < TWO64
  }

  /** How many frames may go for loading a module with an image of `total` bytes. */
  function ModuleCost(total: nat): nat {
    KernelHeap.FrameCost(Need(total)) + KernelHeap.FrameCost(Need(MODULE_SIZE))
  }

  function Need(request: nat): nat { HL.Growth(HL.AlignUp(request, 16)) }

  /** The block of the image and the block of the descriptor. */
  ghost predicate ModuleBlocks(was: set<HL.Block>, now: set<HL.Block>, base: nat, size: nat, mod: nat) {
    exists b, d :: b !in was && d !in was && b != d && now == was + {b, d}
                   && b.Payload() == base && b.size >= size && d.Payload() == mod && d.size >= 96
  }

  /** `load_module`, up to the call of the module's own code. On success the heap has gained the image
      and the descriptor; where it returns NULL the set of live blocks is what it was. */
  method LoadModule(heap: KernelHeap.Heap, file: seq<byte>, ksym: seq<byte> -> nat)
    returns (status: Status, base: nat, image: array<byte>, mod: nat)
    requires heap.Valid()
    requires HeaderOk(file) ==> Aligned(Sections(file)) && SmallIndices(file, Sections(file)) && Room(heap, Need(TotalSize(Sections(file))) + Need(MODULE_SIZE))
    modifies heap, heap.vmm`ram, heap.vmm`tags, heap.vmm.pmm`free, heap.vmm.pmm.bitmap
    ensures if status == Halted then heap.vmm.pmm.free == {} else heap.Valid()
    ensures !HeaderOk(file) || |old(heap.vmm.pmm.free)| >= ModuleCost(TotalSize(Sections(file))) ==> status != Halted
    ensures status != Halted ==> |heap.vmm.pmm.free| >= |old(heap.vmm.pmm.free)| - if HeaderOk(file) then ModuleCost(TotalSize(Sections(file))) else 0
    ensures status == NotLoaded ==> Unloadable(file, ksym) && HL.Live(heap.list) == HL.Live(old(heap.list))
    ensures status == NotLoaded && heap.heapEnd == old(heap.heapEnd) ==> heap.list == old(heap.list)
    ensures status == Loaded ==> Accepts(file, base, ksym) && fresh(image) && IsImage(image[..], file, base, ksym)
    ensures status == Loaded ==> ModuleBlocks(HL.Live(old(heap.list)), HL.Live(heap.list), base, TotalSize(Sections(file)), mod)
    ensures status != Halted && HeaderOk(file) ==>
      heap.heapEnd <= old(heap.heapEnd) + Need(TotalSize(Sections(file))) + Need(MODULE_SIZE)
  {
    hide Sections, TotalSize, Accepts, Unloadable, IsImage, Aligned, SmallIndices, HL.Live, HL.Canonical, HL.AllocStep, HL.FreeStep, KernelHeap.Heap.Valid, KernelHeap.FrameCost, HL.Growth, HL.AlignUp;
    image := new byte[0];
    base, mod := 0, 0;
    var ok;
    forall x | Accepts(file, x, ksym)
      ensures HeaderOk(file) && Placeable(Sections(file), |file|) && TotalSize(Sections(file)) > 0
    {
      AcceptsNeeds(file, x, ksym);
    }
    var headerOk := CheckHeader(file);
    if !headerOk {
      NeverAccepted(file, base, ksym);
      return NotLoaded, base, image, mod;
    }
    var shdrs := Sections(file);
    var valid, total := SizePass(shdrs, |file|);
    if !valid {
      NeverAccepted(file, base, ksym);
      return NotLoaded, base, image, mod;
    }
    ghost var s, hi := heap.list, heap.heapEnd;
    heap.ListCanonical();
    ok, base := heap.Kmalloc(total);
    if !ok { return Halted, base, image, mod; }
    if total > 0 {
      HL.AllocSize(s, hi, heap.list, heap.heapEnd, total, base);
    }
    if base == KernelHeap.NULL {
      NeverAccepted(file, base, ksym);
      return NotLoaded, base, image, mod;
    }
    ghost var b :| HL.Allocated(s, heap.list, b, total, base);
    status, image, mod := LoadIntoBlock(heap, file, base, total, ksym, s, hi, b);
    if status == NotLoaded {
      NeverAccepted(file, base, ksym);
    }
  }

  /** The rest of `load_module`, once the block for the image has been allocated. */
  method LoadIntoBlock(heap: KernelHeap.Heap, file: seq<byte>, base: nat, total: nat, ksym: seq<byte> -> nat,
                       ghost s: seq<HL.Block>, ghost hi: nat, ghost b: HL.Block)
    returns (status: Status, image: array<byte>, mod: nat)
    requires heap.Valid() && HeaderOk(file) && Aligned(Sections(file)) && Placeable(Sections(file), |file|) && SmallIndices(file, Sections(file))
    requires total == TotalSize(Sections(file)) > 0 && Room(heap, Need(MODULE_SIZE))
    requires HL.Canonical(s, HL.HEAP_START, hi) && HL.AllocStep(s, hi, heap.list, heap.heapEnd, total, base)
    requires HL.Allocated(s, heap.list, b, total, base)
    modifies heap, heap.vmm`ram, heap.vmm`tags, heap.vmm.pmm`free, heap.vmm.pmm.bitmap
    ensures if status == Halted then heap.vmm.pmm.free == {} else heap.Valid()
    ensures |old(heap.vmm.pmm.free)| >= KernelHeap.FrameCost(Need(MODULE_SIZE)) ==> status != Halted
    ensures status != Halted ==> |heap.vmm.pmm.free| >= |old(heap.vmm.pmm.free)| - KernelHeap.FrameCost(Need(MODULE_SIZE))
    ensures status != Halted ==> old(heap.heapEnd) <= heap.heapEnd <= old(heap.heapEnd) + Need(MODULE_SIZE)
    ensures status == NotLoaded ==> !Accepts(file, base, ksym) && HL.Live(heap.list) == HL.Live(s) && heap.heapEnd == old(heap.heapEnd)
    ensures status == NotLoaded && heap.heapEnd == hi ==> heap.list == s
    ensures status == Loaded ==> Accepts(file, base, ksym) && fresh(image) && IsImage(image[..], file, base, ksym)
    ensures status == Loaded ==> ModuleBlocks(HL.Live(s), HL.Live(heap.list), base, total, mod)
  {
    hide Sections, TotalSize, HeaderOk, Placeable, Accepts, IsImage, Aligned, SmallIndices, HL.Live, HL.Canonical, HL.AllocStep, HL.FreeStep, KernelHeap.Heap.Valid, KernelHeap.FrameCost, HL.Growth, HL.AlignUp, ModuleBlocks;
    mod := 0;
    image := new byte[total];
    var ok := BuildImage(file, base, image, ksym);
    if !ok {
      GiveBack(heap, base, total, s, hi, b);
      return NotLoaded, image, mod;
    }
    ok, mod := AddDescriptor(heap, base, total, s, b);
    status := if ok then Loaded else Halted;
  }

  /** The `kfree` on every failure path: it undoes the allocation of the image. */
  method GiveBack(heap: KernelHeap.Heap, base: nat, ghost total: nat, ghost s: seq<HL.Block>, ghost hi: nat, ghost b: HL.Block)
    requires heap.Valid() && total > 0
    requires HL.Canonical(s, HL.HEAP_START, hi) && HL.AllocStep(s, hi, heap.list, heap.heapEnd, total, base)
    requires HL.Allocated(s, heap.list, b, total, base)
    modifies heap`mem, heap`list
    ensures heap.Valid() && HL.Live(heap.list) == HL.Live(s) && (heap.heapEnd == hi ==> heap.list == s)
  {
    hide HL.Canonical, HL.AllocStep, HL.FreeStep, KernelHeap.Heap.Valid;
    ghost var s1, hi1 := heap.list, heap.heapEnd;
    heap.ListCanonical();
    heap.Kfree(base);
    HL.AllocThenFree(s, hi, s1, hi1, total, base, heap.list);
    HL.FreeRemoves(s1, hi1, heap.list, base, b);
  }

  /** The allocation of the descriptor. */
  method AddDescriptor(heap: KernelHeap.Heap, ghost base: nat, ghost total: nat, ghost s: seq<HL.Block>, ghost b: HL.Block)
    returns (ok: bool, mod: nat)
    requires heap.Valid() && Room(heap, Need(MODULE_SIZE)) && HL.Allocated(s, heap.list, b, total, base)
    modifies heap, heap.vmm`ram, heap.vmm`tags, heap.vmm.pmm`free, heap.vmm.pmm.bitmap
    ensures if ok then heap.Valid() else heap.vmm.pmm.free == {}
    ensures |old(heap.vmm.pmm.free)| >= KernelHeap.FrameCost(Need(MODULE_SIZE)) ==> ok
    ensures ok ==> |heap.vmm.pmm.free| >= |old(heap.vmm.pmm.free)| - KernelHeap.FrameCost(Need(MODULE_SIZE))
    ensures ok ==> old(heap.heapEnd) <= heap.heapEnd <= old(heap.heapEnd) + Need(MODULE_SIZE)
    ensures ok ==> ModuleBlocks(HL.Live(s), HL.Live(heap.list), base, total, mod)
  {
    hide HL.Live, HL.Canonical, HL.AllocStep, KernelHeap.Heap.Valid, KernelHeap.FrameCost, HL.Growth, HL.AlignUp, HL.Allocated, ModuleBlocks;
    ghost var s1, hi1 := heap.list, heap.heapEnd;
    heap.ListCanonical();
    ok, mod := heap.Kmalloc(MODULE_SIZE);
    if !ok { return; }
    HL.AllocSize(s1, hi1, heap.list, heap.heapEnd, MODULE_SIZE, mod);
    ghost var d :| HL.Allocated(s1, heap.list, d, MODULE_SIZE, mod);
    TwoBlocks(s, s1, heap.list, b, d, total, base, mod);
  }

  lemma TwoBlocks(s: seq<HL.Block>, s1: seq<HL.Block>, s2: seq<HL.Block>, b: HL.Block, d: HL.Block, total: nat, base: nat, mod: nat)
    requires HL.Allocated(s, s1, b, total, base) && HL.Allocated(s1, s2, d, MODULE_SIZE, mod)
    ensures ModuleBlocks(HL.Live(s), HL.Live(s2), base, total, mod)
  {
    assert HL.Live(s2) == HL.Live(s) + {b, d};
  }

  lemma AcceptsNeeds(file: seq<byte>, base: nat, ksym: seq<byte> -> nat)
    requires Accepts(file, base, ksym)
    ensures HeaderOk(file) && Placeable(Sections(file), |file|) && TotalSize(Sections(file)) > 0
  {
  }

  /** `elf_validate` */
  method CheckHeader(file: seq<byte>) returns (ok: bool)
    ensures ok <==> HeaderOk(file)
  {
    if |file| < EHDR_SIZE { return false; }
    if !Magic(file) { return false; }
    var h := ParseEhdr(file);
    if h.elfClass != ELFCLASS64 { return false; }
    if h.machine != EM_X86_64 { return false; }
    if h.etype != ET_REL { return false; }
    if h.shentsize != SHDR_SIZE || h.shoff > |file| || h.shnum > (|file| - h.shoff) / SHDR_SIZE { return false; }
    ok := true;
  }

  /** Taking out the file buffer leaves the two blocks of the module. */
  lemma BufferFreed(was: set<HL.Block>, s1: set<HL.Block>, s2: set<HL.Block>, b: HL.Block, base: nat, size: nat, mod: nat)
    requires s1 == was + {b} && b !in was && ModuleBlocks(s1, s2, base, size, mod)
    ensures b in s2 && ModuleBlocks(was, s2 - {b}, base, size, mod)
  {
    var i, d :| i !in s1 && d !in s1 && i != d && s2 == s1 + {i, d}
                && i.Payload() == base && i.size >= size && d.Payload() == mod && d.size >= MODULE_SIZE;
    assert s2 - {b} == was + {i, d};
  }

  /** How many frames may go for reading a file into a buffer and loading it. */
  function FileCost(data: seq<byte>): nat {
    KernelHeap.FrameCost(Need(|data|)) + if HeaderOk(data) then ModuleCost(TotalSize(Sections(data))) else 0
  }

  /** An opened file: whether it is a regular file, and its bytes. */
  datatype VfsFile = VfsFile(isFile: bool, data: seq<byte>)

  /** `load_module_from_file`: reads the file into a buffer, loads the module and frees the buffer.
      Success adds exactly the image and the descriptor to the heap, failure nothing. */
  method LoadModuleFromFile(heap: KernelHeap.Heap, file: Option<VfsFile>, ksym: seq<byte> -> nat)
    returns (status: Status, base: nat, image: array<byte>, mod: nat)
    requires heap.Valid()
    requires file.Some? ==> var f := file.value.data;
      && Room(heap, Need(|f|))
      && (HeaderOk(f) ==> Aligned(Sections(f)) && SmallIndices(f, Sections(f)) && Room(heap, Need(|f|) + Need(TotalSize(Sections(f))) + Need(MODULE_SIZE)))
    modifies heap, heap.vmm`ram, heap.vmm`tags, heap.vmm.pmm`free, heap.vmm.pmm.bitmap
    ensures if status == Halted then heap.vmm.pmm.free == {} else heap.Valid()
    ensures file.None? || !file.value.isFile ==> status == NotLoaded
    ensures file.Some? && |old(heap.vmm.pmm.free)| >= FileCost(file.value.data) ==> status != Halted
    ensures status == NotLoaded ==> HL.Live(heap.list) == HL.Live(old(heap.list))
    ensures status == Loaded ==> file.Some? && file.value.isFile && Accepts(file.value.data, base, ksym)
    ensures status == Loaded ==> fresh(image) && IsImage(image[..], file.value.data, base, ksym)
    ensures status == Loaded ==>
      ModuleBlocks(HL.Live(old(heap.list)), HL.Live(heap.list), base, TotalSize(Sections(file.value.data)), mod)
    ensures file.Some? && file.value.isFile && |file.value.data| > 0 && status == NotLoaded ==> Unloadable(file.value.data, ksym)
  {
    hide Sections, TotalSize, HeaderOk, Accepts, Unloadable, IsImage, Aligned, SmallIndices, HL.Live, HL.Canonical, HL.AllocStep, HL.FreeStep, KernelHeap.Heap.Valid, KernelHeap.FrameCost, HL.Growth, HL.AlignUp;
    image := new byte[0];
    base, mod := 0, 0;
    if file.None? { return NotLoaded, base, image, mod; }
    if !file.value.isFile { return NotLoaded, base, image, mod; }
    ghost var s := heap.list;
    heap.ListCanonical();
    var data := file.value.data;
    var ok, buffer := heap.Kmalloc(|data|);
    if !ok { return Halted, base, image, mod; }
    if |data| > 0 {
      HL.AllocSize(s, old(heap.heapEnd), heap.list, heap.heapEnd, |data|, buffer);
    }
    if buffer == KernelHeap.NULL { return NotLoaded, base, image, mod; }
    ghost var s1 := heap.list;
    ghost var b :| HL.Allocated(s, s1, b, |data|, buffer);
    status, base, image, mod := LoadModule(heap, data, ksym);
    if status == Halted { return; }
    ghost var s2 := heap.list;
    if status == Loaded {
      AcceptsNeeds(data, base, ksym);
      BufferFreed(HL.Live(s), HL.Live(s1), HL.Live(s2), b, base, TotalSize(Sections(data)), mod);
    }
    heap.ListCanonical();
    heap.Kfree(buffer);
    HL.FreeRemoves(s2, heap.heapEnd, heap.list, buffer, b);
  }
}
