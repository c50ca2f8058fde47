/** Relocation of a loaded module: what one entry patches, what a run of patches leaves behind, and
    that their order does not matter when they touch different bytes. */
module Relocations {
  import opened Bytes
  import opened Elf
  import opened ModuleLayout

  const R_NONE := 0
  const R_64 := 1
  const R_PC32 := 2
  const R_PLT32 := 4
  const R_32 := 10
  const R_32S := 11

  // ----- patches of an image

  /** Bytes to be stored at an offset of the image. */
  datatype Patch = Patch(at: nat, bytes: seq<byte>) {
    function End(): nat { at + |bytes| }

    predicate Touches(k: nat) { at <= k < End() }
  }

  predicate Inside(p: Patch, n: nat) { p.End() <= n }

  function Apply(image: seq<byte>, p: Patch): (r: seq<byte>)
    requires Inside(p, |image|)
    ensures |r| == |image|
  {
    image[..p.at] + p.bytes + image[p.End()..]
  }

  function ApplyAll(image: seq<byte>, ps: seq<Patch>): (r: seq<byte>)
    requires forall p :: p in ps ==> Inside(p, |image|)
    ensures |r| == |image|
  {
    if ps == [] then image else Apply(ApplyAll(image, ps[..|ps| - 1]), ps[|ps| - 1])
  }

  predicate DisjointPatches(p: Patch, q: Patch) { p.End() <= q.at || q.End() <= p.at }

  ghost predicate PairwiseDisjoint(ps: seq<Patch>) {
    forall i, j :: 0 <= i < j < |ps| ==> DisjointPatches(ps[i], ps[j])
  }

  /** Bytes no patch touches keep their value. */
  lemma {:induction false} Untouched(image: seq<byte>, ps: seq<Patch>, k: nat)
    requires (forall p :: p in ps ==> Inside(p, |image|)) && k < |image|
    requires forall p :: p in ps ==> !p.Touches(k)
    ensures ApplyAll(image, ps)[k] == image[k]
  {
    if ps != [] {
      Untouched(image, ps[..|ps| - 1], k);
      assert !ps[|ps| - 1].Touches(k);
    }
  }

  /** With disjoint patches every patch is there in the end. */
  lemma {:induction false} PatchedField(image: seq<byte>, ps: seq<Patch>, i: nat, k: nat)
    requires (forall p :: p in ps ==> Inside(p, |image|)) && PairwiseDisjoint(ps)
    requires i < |ps| && ps[i].Touches(k)
    ensures k < |image| && ApplyAll(image, ps)[k] == ps[i].bytes[k - ps[i].at]
  {
    assert Inside(ps[i], |image|);
    var n := |ps| - 1;
    ApplyAt(ApplyAll(image, ps[..n]), ps[n], k);
    if i < n {
      PatchedField(image, ps[..n], i, k);
      assert DisjointPatches(ps[i], ps[n]);
    }
  }

  lemma ApplyAt(image: seq<byte>, p: Patch, k: nat)
    requires Inside(p, |image|) && k < |image|
    ensures Apply(image, p)[k] == if p.Touches(k) then p.bytes[k - p.at] else image[k]
  {
  }

  /** The order of disjoint patches does not matter. */
  lemma OrderIrrelevant(image: seq<byte>, ps: seq<Patch>, qs: seq<Patch>)
    requires forall p :: p in ps ==> Inside(p, |image|)
    requires forall p :: p in ps <==> p in qs
    requires PairwiseDisjoint(ps) && PairwiseDisjoint(qs)
    ensures ApplyAll(image, ps) == ApplyAll(image, qs)
  {
    forall k | 0 <= k < |image|
      ensures ApplyAll(image, ps)[k] == ApplyAll(image, qs)[k]
    {
      if p :| p in ps && p.Touches(k) {
        var i :| 0 <= i < |ps| && ps[i] == p;
        var j :| 0 <= j < |qs| && qs[j] == p;
        PatchedField(image, ps, i, k);
        PatchedField(image, qs, j, k);
      } else {
        Untouched(image, ps, k);
        Untouched(image, qs, k);
      }
    }
  }

  // ----- one relocation entry

  const INT_END := 0x8000_0000

  /** The loader keeps counts and symbol indices in a signed 32-bit integer: they must fit. */
  ghost predicate SmallIndices(file: seq<byte>, shdrs: seq<Shdr>) {
    |file| < INT_END && forall sh, j: nat :: sh in shdrs && sh.stype == SHT_RELA ==> SmallIndex(file, sh, j)
  }

  predicate SmallIndex(file: seq<byte>, sh: Shdr, j: nat) {
    sh.offset + RELA_SIZE * (j + 1) <= |file| ==> ParseRela(file, sh.offset + RELA_SIZE * j).sym < INT_END
  }

  /** A module being relocated: its file and section headers, the address of its image, and its
      symbol and string tables. `ksym` is the kernel symbol lookup, 0 for an unknown name. */
  datatype Ctx = Ctx(file: seq<byte>, shdrs: seq<Shdr>, base: nat, symtab: Shdr, strtab: Shdr, ksym: seq<byte> -> nat) {
    ghost predicate Ok() {
      && Aligned(shdrs) && Placeable(shdrs, |file|) && SmallIndices(file, shdrs)
      && symtab.offset + symtab.size <= |file| && strtab.offset + strtab.size <= |file|
    }

    function NumSyms(): nat { symtab.size / SYM_SIZE }

    function SymAt(i: nat): Sym
      requires symtab.offset + symtab.size <= |file| && i < NumSyms()
    {
      ParseSym(file, symtab.offset + SYM_SIZE * i)
    }

    /** The address of an allocatable section. */
    function Addr(i: nat): nat
      requires i < |shdrs|
    {
      base + Place(shdrs, i)
    }
  }

  /** The bytes from `off` up to the first NUL. */
  function CString(buf: seq<byte>, off: nat): seq<byte>
    requires off <= |buf|
    decreases |buf| - off
  {
    if off == |buf| || buf[off] == 0 then [] else [buf[off]] + CString(buf, off + 1)
  }

  /** The value of a symbol, or None where the loader gives up. */
  function SymValue(c: Ctx, sym: Sym): Option<nat>
    requires c.strtab.offset + c.strtab.size <= |c.file|
  {
    if sym.name >= c.strtab.size then None
    else if sym.shndx == SHN_UNDEF then
      var v := c.ksym(CString(c.file, c.strtab.offset + sym.name));
      if v == 0 then None else Some(v)
    else if sym.shndx == SHN_ABS then Some(sym.value)
    else if sym.shndx >= |c.shdrs| || !Alloc(c.shdrs[sym.shndx]) then None
    else Some((c.Addr(sym.shndx) + sym.value) % TWO64)
  }

  predicate Known(kind: nat) { kind in {R_NONE, R_64, R_PC32, R_PLT32, R_32, R_32S} }

  function Width(kind: nat): nat { if kind == R_64 then 8 else 4 }

  /** The word a stored addend stands for. */
  function Signed(a: nat): int { if a < TWO64 / 2 then a else a - TWO64 }

  /** The calculation column of the ABI: S + A, or S + A - P for the PC-relative kinds. */
  function Calculation(kind: nat, s: nat, a: int, p: nat): int {
    if kind == R_PC32 || kind == R_PLT32 then s + a - p else s + a
  }

  datatype Resolved = Bad | Nothing | Write(patch: Patch)

  /** What the loader does with one relocation against section `target`. */
  function Resolve(c: Ctx, target: nat, r: Rela): Resolved
    requires c.symtab.offset + c.symtab.size <= |c.file| && c.strtab.offset + c.strtab.size <= |c.file|
    requires target < |c.shdrs|
  {
    if r.sym >= c.NumSyms() then Bad
    else
      var s := SymValue(c, c.SymAt(r.sym));
      if s.None? then Bad
      else if r.kind == R_NONE then Nothing
      else if r.offset + Width(r.kind) > c.shdrs[target].size || !Known(r.kind) then Bad
      else
        var value := Calculation(r.kind, s.value, Signed(r.addend), c.Addr(target) + r.offset);
        Write(Patch(Place(c.shdrs, target) + r.offset, ToLe(value % Pow256(Width(r.kind)), Width(r.kind))))
  }

  /** No relocation writes outside the placed range of its target section. */
  lemma PatchInTarget(c: Ctx, target: nat, r: Rela)
    requires c.Ok() && target < |c.shdrs| && Alloc(c.shdrs[target]) && Resolve(c, target, r).Write?
    ensures var p := Resolve(c, target, r).patch;
      && Place(c.shdrs, target) <= p.at && p.End() <= Place(c.shdrs, target) + c.shdrs[target].size
      && Inside(p, TotalSize(c.shdrs))
  {
    PlacesFit(c.shdrs, target, target);
  }

  /** A patched 8-byte or 4-byte field reads back as the calculation, modulo its width. */
  lemma FieldReadsBack(c: Ctx, target: nat, r: Rela, s: nat)
    requires c.Ok() && target < |c.shdrs| && Resolve(c, target, r).Write?
    requires r.sym < c.NumSyms() && SymValue(c, c.SymAt(r.sym)) == Some(s)
    ensures FromLe(Resolve(c, target, r).patch.bytes)
            == Calculation(r.kind, s, Signed(r.addend), c.Addr(target) + r.offset) % (if r.kind == R_64 then TWO64 else TWO32)
  {
    hide Calculation, ToLe, FromLe, Pow256;
    var w := Width(r.kind);
    var x := Calculation(r.kind, s, Signed(r.addend), c.Addr(target) + r.offset);
    Pow256Word();
    LeRoundTrip(x % Pow256(w), w);
    ModTwice(x, Pow256(w));
  }

  lemma ModTwice(x: int, m: nat)
    requires m > 0
    ensures x % m % m == x % m
  {
  }

  // ----- all relocations of a module

  datatype Outcome = Failed | Done(patches: seq<Patch>) {
    function Then(o: Outcome): Outcome {
      if Failed? || o.Failed? then Failed else Done(patches + o.patches)
    }
  }

  predicate RelaOk(c: Ctx, sh: Shdr) {
    sh.info < |c.shdrs| && sh.offset <= |c.file| && sh.size <= |c.file| - sh.offset && sh.size % RELA_SIZE == 0
  }

  function RelaAt(c: Ctx, sh: Shdr, j: nat): Rela
    requires sh.offset + RELA_SIZE * (j + 1) <= |c.file|
  {
    ParseRela(c.file, sh.offset + RELA_SIZE * j)
  }

  function FromResolved(r: Resolved): Outcome {
    match r
    case Bad => Failed
    case Nothing => Done([])
    case Write(p) => Done([p])
  }

  /** The first `n` entries of one relocation section. */
  function EntriesRun(c: Ctx, sh: Shdr, n: nat): Outcome
    requires c.symtab.offset + c.symtab.size <= |c.file| && c.strtab.offset + c.strtab.size <= |c.file|
    requires sh.info < |c.shdrs| && sh.offset + RELA_SIZE * n <= |c.file|
  {
    if n == 0 then Done([]) else EntriesRun(c, sh, n - 1).Then(FromResolved(Resolve(c, sh.info, RelaAt(c, sh, n - 1))))
  }

  /** One section: relocations of sections that are not loaded are skipped. */
  function SectionRun(c: Ctx, sh: Shdr): Outcome
    requires c.symtab.offset + c.symtab.size <= |c.file| && c.strtab.offset + c.strtab.size <= |c.file|
  {
    if sh.stype != SHT_RELA then Done([])
    else if !RelaOk(c, sh) then Failed
    else if !Alloc(c.shdrs[sh.info]) then Done([])
    else EntriesRun(c, sh, sh.size / RELA_SIZE)
  }

  /** The first `n` sections. */
  function Run(c: Ctx, n: nat): Outcome
    requires c.symtab.offset + c.symtab.size <= |c.file| && c.strtab.offset + c.strtab.size <= |c.file|
    requires n <= |c.shdrs|
  {
    if n == 0 then Done([]) else Run(c, n - 1).Then(SectionRun(c, c.shdrs[n - 1]))
  }

  /** A patch that stays inside the placed range of some allocatable section. */
  ghost predicate PatchOk(c: Ctx, p: Patch) {
    exists t :: 0 <= t < |c.shdrs| && Alloc(c.shdrs[t]) && Place(c.shdrs, t) <= p.at && p.End() <= Place(c.shdrs, t) + c.shdrs[t].size
  }

  lemma {:induction false} EntriesInside(c: Ctx, sh: Shdr, n: nat)
    requires c.Ok() && sh.info < |c.shdrs| && Alloc(c.shdrs[sh.info]) && sh.offset + RELA_SIZE * n <= |c.file|
    ensures EntriesRun(c, sh, n).Done? ==> forall p :: p in EntriesRun(c, sh, n).patches ==> PatchOk(c, p)
  {
    hide Resolve, RelaAt;
    if n > 0 {
      EntriesInside(c, sh, n - 1);
      var r := Resolve(c, sh.info, RelaAt(c, sh, n - 1));
      if r.Write? { PatchInTarget(c, sh.info, RelaAt(c, sh, n - 1)); }
    }
  }

  /** Every patch of a whole module stays inside the placed range of some loaded section. */
  lemma {:induction false} PatchesInside(c: Ctx, n: nat)
    requires c.Ok() && n <= |c.shdrs|
    ensures Run(c, n).Done? ==> forall p :: p in Run(c, n).patches ==> PatchOk(c, p) && Inside(p, TotalSize(c.shdrs))
  {
    hide EntriesRun, PatchOk;
    if n > 0 {
      PatchesInside(c, n - 1);
      var sh := c.shdrs[n - 1];
      if sh.stype == SHT_RELA && RelaOk(c, sh) && Alloc(c.shdrs[sh.info]) {
        EntriesInside(c, sh, sh.size / RELA_SIZE);
        forall p | PatchOk(c, p)
          ensures Inside(p, TotalSize(c.shdrs))
        {
          PatchFits(c, p);
        }
      }
    }
  }

  lemma PatchFits(c: Ctx, p: Patch)
    requires c.Ok() && PatchOk(c, p)
    ensures Inside(p, TotalSize(c.shdrs))
  {
    var t :| 0 <= t < |c.shdrs| && Alloc(c.shdrs[t]) && Place(c.shdrs, t) <= p.at && p.End() <= Place(c.shdrs, t) + c.shdrs[t].size;
    PlacesFit(c.shdrs, t, t);
  }

  /** A loaded image, byte by byte: the relocated value in every patched field, and the byte of the
      section everywhere else in the placed sections. */
  lemma LoadedBytes(c: Ctx, image0: seq<byte>, ps: seq<Patch>, k: nat)
    requires c.Ok() && Run(c, |c.shdrs|) == Done(ps) && |image0| == TotalSize(c.shdrs)
    requires Placed(image0, c.file, c.shdrs, |c.shdrs|) && PairwiseDisjoint(ps) && k < |image0|
    ensures forall p :: p in ps ==> Inside(p, |image0|)
    ensures forall p :: p in ps && p.Touches(k) ==> ApplyAll(image0, ps)[k] == p.bytes[k - p.at]
    ensures (forall p :: p in ps ==> !p.Touches(k)) ==>
      forall i :: 0 <= i < |c.shdrs| && Alloc(c.shdrs[i]) && Place(c.shdrs, i) <= k < Place(c.shdrs, i) + c.shdrs[i].size
        ==> ApplyAll(image0, ps)[k] == SectionByte(c.file, c.shdrs[i], k - Place(c.shdrs, i))
  {
    hide Run, Place, SectionByte;
    PatchesInside(c, |c.shdrs|);
    forall p | p in ps && p.Touches(k)
      ensures ApplyAll(image0, ps)[k] == p.bytes[k - p.at]
    {
      var i :| 0 <= i < |ps| && ps[i] == p;
      PatchedField(image0, ps, i, k);
    }
    if forall p :: p in ps ==> !p.Touches(k) {
      Untouched(image0, ps, k);
      forall i | 0 <= i < |c.shdrs| && Alloc(c.shdrs[i]) && Place(c.shdrs, i) <= k < Place(c.shdrs, i) + c.shdrs[i].size
        ensures image0[k] == SectionByte(c.file, c.shdrs[i], k - Place(c.shdrs, i))
      {
        assert Holds(image0, c.file, c.shdrs[i], Place(c.shdrs, i));
      }
    }
  }

  // ----- every relocation entry of a loaded module

  lemma {:induction false} EntryInRun(c: Ctx, sh: Shdr, n: nat, j: nat)
    requires c.Ok() && sh.info < |c.shdrs| && sh.offset + RELA_SIZE * n <= |c.file| && j < n
    requires EntriesRun(c, sh, n).Done?
    ensures var r := Resolve(c, sh.info, RelaAt(c, sh, j)); !r.Bad? && (r.Write? ==> r.patch in EntriesRun(c, sh, n).patches)
  {
    hide Resolve, RelaAt;
    if j < n - 1 { EntryInRun(c, sh, n - 1, j); }
  }

  lemma {:induction false} SectionInRun(c: Ctx, n: nat, i: nat)
    requires c.Ok() && i < n <= |c.shdrs| && Run(c, n).Done?
    ensures SectionRun(c, c.shdrs[i]).Done? && forall p :: p in SectionRun(c, c.shdrs[i]).patches ==> p in Run(c, n).patches
  {
    hide SectionRun;
    if i < n - 1 { SectionInRun(c, n - 1, i); }
  }

  /** A patch reads back from the finished image. */
  lemma PatchReadsBack(image: seq<byte>, ps: seq<Patch>, p: Patch)
    requires (forall q :: q in ps ==> Inside(q, |image|)) && PairwiseDisjoint(ps) && p in ps
    ensures ApplyAll(image, ps)[p.at..p.End()] == p.bytes
  {
    hide ApplyAll, PairwiseDisjoint;
    assert Inside(p, |image|);
    var i :| 0 <= i < |ps| && ps[i] == p;
    forall k | 0 <= k < |p.bytes|
      ensures ApplyAll(image, ps)[p.at + k] == p.bytes[k]
    {
      PatchedField(image, ps, i, p.at + k);
    }
  }

  /** What the field of entry `r` against section `target` must hold. */
  ghost predicate FieldHolds(c: Ctx, image: seq<byte>, target: nat, r: Rela)
    requires c.Ok() && target < |c.shdrs|
  {
    && r.sym < c.NumSyms() && SymValue(c, c.SymAt(r.sym)).Some?
    && (r.kind != R_NONE ==>
      var at, w := Place(c.shdrs, target) + r.offset, Width(r.kind);
      && at + w <= |image|
      && FromLe(image[at..at + w])
         == Calculation(r.kind, SymValue(c, c.SymAt(r.sym)).value, Signed(r.addend), c.Addr(target) + r.offset)
            % (if r.kind == R_64 then TWO64 else TWO32))
  }

  /** In a relocated image with disjoint patches, the field of every entry of every relocation section of a
      loaded section holds S + A or S + A - P. */
  lemma RelocatedField(c: Ctx, image0: seq<byte>, ps: seq<Patch>, i: nat, j: nat)
    requires c.Ok() && Run(c, |c.shdrs|) == Done(ps) && |image0| == TotalSize(c.shdrs) && PairwiseDisjoint(ps)
    requires i < |c.shdrs| && c.shdrs[i].stype == SHT_RELA && c.shdrs[i].info < |c.shdrs| && Alloc(c.shdrs[c.shdrs[i].info])
    requires j < c.shdrs[i].size / RELA_SIZE
    ensures RelaOk(c, c.shdrs[i]) && forall p :: p in ps ==> Inside(p, |image0|)
    ensures FieldHolds(c, ApplyAll(image0, ps), c.shdrs[i].info, RelaAt(c, c.shdrs[i], j))
  {
    hide Run, Resolve, Place, TotalSize, ApplyAll, EntriesRun, PairwiseDisjoint, Aligned, Placeable, SmallIndices, PatchOk, Calculation, FromLe, SymValue, Alloc, RelaAt;
    var sh := c.shdrs[i];
    SectionInRun(c, |c.shdrs|, i);
    PatchesInside(c, |c.shdrs|);
    EntryInRun(c, sh, sh.size / RELA_SIZE, j);
    var r := RelaAt(c, sh, j);
    EntryPatch(c, sh.info, r);
    if r.kind != R_NONE {
      PatchReadsBack(image0, ps, Resolve(c, sh.info, r).patch);
    }
  }

  /** The patch of an entry the loader does not reject holds the calculation, at the place of the field. */
  lemma EntryPatch(c: Ctx, target: nat, r: Rela)
    requires c.Ok() && target < |c.shdrs| && !Resolve(c, target, r).Bad?
    ensures r.sym < c.NumSyms() && SymValue(c, c.SymAt(r.sym)).Some?
    ensures r.kind != R_NONE ==>
      && Resolve(c, target, r).Write?
      && var p := Resolve(c, target, r).patch;
         && p.at == Place(c.shdrs, target) + r.offset && |p.bytes| == Width(r.kind)
         && FromLe(p.bytes) == Calculation(r.kind, SymValue(c, c.SymAt(r.sym)).value, Signed(r.addend), c.Addr(target) + r.offset)
            % (if r.kind == R_64 then TWO64 else TWO32)
  {
    hide Place, ToLe, FromLe, Calculation, SymValue;
    if r.kind != R_NONE {
      FieldReadsBack(c, target, r, SymValue(c, c.SymAt(r.sym)).value);
    }
  }

  // ----- the base does not matter for success

  lemma ResolveAnyBase(c: Ctx, b: nat, target: nat, r: Rela)
    requires c.Ok() && target < |c.shdrs|
    ensures c.(base := b).Ok() && FromResolved(Resolve(c.(base := b), target, r)).Done? == FromResolved(Resolve(c, target, r)).Done?
  {
    hide Place, ToLe, CString, Calculation, ParseSym;
  }

  lemma {:induction false} EntriesAnyBase(c: Ctx, b: nat, sh: Shdr, n: nat)
    requires c.Ok() && sh.info < |c.shdrs| && sh.offset + RELA_SIZE * n <= |c.file|
    ensures EntriesRun(c.(base := b), sh, n).Done? == EntriesRun(c, sh, n).Done?
  {
    hide Resolve, RelaAt;
    if n > 0 {
      EntriesAnyBase(c, b, sh, n - 1);
      ResolveAnyBase(c, b, sh.info, RelaAt(c, sh, n - 1));
      assert RelaAt(c.(base := b), sh, n - 1) == RelaAt(c, sh, n - 1) by { SameRela(c, b, sh, n - 1); }
    }
  }

  lemma SameRela(c: Ctx, b: nat, sh: Shdr, j: nat)
    requires sh.offset + RELA_SIZE * (j + 1) <= |c.file|
    ensures RelaAt(c.(base := b), sh, j) == RelaAt(c, sh, j)
  {
  }

  /** Whether all relocations of a module can be resolved does not depend on where it is loaded. */
  lemma {:induction false} RunAnyBase(c: Ctx, b: nat, n: nat)
    requires c.Ok() && n <= |c.shdrs|
    ensures Run(c.(base := b), n).Done? == Run(c, n).Done?
  {
    hide EntriesRun;
    if n > 0 {
      RunAnyBase(c, b, n - 1);
      var sh := c.shdrs[n - 1];
      if sh.stype == SHT_RELA && RelaOk(c, sh) && Alloc(c.shdrs[sh.info]) {
        EntriesAnyBase(c, b, sh, sh.size / RELA_SIZE);
      }
    }
  }

  // ----- exactly when a module is rejected

  lemma {:induction false} EntriesDone(c: Ctx, sh: Shdr, n: nat)
    requires c.Ok() && sh.info < |c.shdrs| && sh.offset + RELA_SIZE * n <= |c.file|
    ensures EntriesRun(c, sh, n).Done? <==> forall j :: 0 <= j < n ==> !Resolve(c, sh.info, RelaAt(c, sh, j)).Bad?
  {
    hide Resolve, RelaAt;
    if n > 0 { EntriesDone(c, sh, n - 1); }
  }

  lemma {:induction false} RunDone(c: Ctx, n: nat)
    requires c.Ok() && n <= |c.shdrs|
    ensures Run(c, n).Done? <==> forall i :: 0 <= i < n ==> SectionRun(c, c.shdrs[i]).Done?
  {
    hide SectionRun;
    if n > 0 { RunDone(c, n - 1); }
  }

  /** A C string: the bytes up to the first zero. */
  ghost predicate NameAt(buf: seq<byte>, off: nat, name: seq<byte>) {
    && off + |name| <= |buf| && buf[off..off + |name|] == name && 0 !in name
    && (off + |name| == |buf| || buf[off + |name|] == 0)
  }

  lemma {:induction false} NameFound(buf: seq<byte>, off: nat)
    requires off <= |buf|
    ensures NameAt(buf, off, CString(buf, off))
    decreases |buf| - off
  {
    if off < |buf| && buf[off] != 0 {
      NameFound(buf, off + 1);
      var rest := CString(buf, off + 1);
      assert buf[off..off + 1 + |rest|] == [buf[off]] + buf[off + 1..off + 1 + |rest|];
    }
  }

  lemma NameUnique(buf: seq<byte>, off: nat, m: seq<byte>, n: seq<byte>)
    requires NameAt(buf, off, m) && NameAt(buf, off, n)
    ensures m == n
  {
  }
}
