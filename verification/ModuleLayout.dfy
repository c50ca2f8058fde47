/** Where the module loader puts the allocatable sections: the sizing pass and the placing pass. */
module ModuleLayout {
  import opened Bytes
  import opened Elf

  ghost predicate PowerOfTwo(a: nat) { exists k: nat :: a == Pow2(k) }

  /** `(x + a - 1) & ~(a - 1)` for an alignment above 1. */
  function Padded(x: nat, a: nat): nat {
    if a > 1 then AndNot(x + a - 1, a - 1) else x
  }

  /** On powers of two the mask rounds up to the next multiple. */
  lemma PaddedRounds(x: nat, a: nat)
    requires a > 1 ==> PowerOfTwo(a)
    ensures x <= Padded(x, a) && (a > 1 ==> Padded(x, a) < x + a && Padded(x, a) % a == 0)
  {
    if a > 1 {
      var k: nat :| a == Pow2(k);
      AndNotLow(x + a - 1, k);
      RoundDown(x + a - 1, a);
    }
  }

  lemma RoundDown(x: nat, a: nat)
    requires a > 0
    ensures x / a * a <= x < x / a * a + a && x / a * a % a == 0
  {
    var q := x / a;
    assert x == a * q + x % a;
    ModUnique(q * a, a, q, 0);
  }

  /** Every alignment that matters is a power of two. */
  ghost predicate Aligned(shdrs: seq<Shdr>) {
    forall sh :: sh in shdrs && Alloc(sh) && sh.addralign > 1 ==> PowerOfTwo(sh.addralign)
  }

  /** The running offset of both passes after the first `n` sections. */
  function Offset(shdrs: seq<Shdr>, n: nat): nat
    requires n <= |shdrs|
  {
    if n == 0 then 0
    else if Alloc(shdrs[n - 1]) then Padded(Offset(shdrs, n - 1), shdrs[n - 1].addralign) + shdrs[n - 1].size
    else Offset(shdrs, n - 1)
  }

  function TotalSize(shdrs: seq<Shdr>): nat { Offset(shdrs, |shdrs|) }

  /** Where an allocatable section starts in the image. */
  function Place(shdrs: seq<Shdr>, i: nat): nat
    requires i < |shdrs|
  {
    Padded(Offset(shdrs, i), shdrs[i].addralign)
  }

  lemma {:induction false} OffsetGrows(shdrs: seq<Shdr>, m: nat, n: nat)
    requires m <= n <= |shdrs| && Aligned(shdrs)
    ensures Offset(shdrs, m) <= Offset(shdrs, n)
    decreases n
  {
    if m < n {
      OffsetGrows(shdrs, m, n - 1);
      PaddedUp(shdrs, n - 1);
    }
  }

  lemma PaddedUp(shdrs: seq<Shdr>, i: nat)
    requires i < |shdrs| && Aligned(shdrs)
    ensures Alloc(shdrs[i]) ==> Offset(shdrs, i) <= Place(shdrs, i)
    ensures Alloc(shdrs[i]) && shdrs[i].addralign > 1 ==> Place(shdrs, i) % shdrs[i].addralign == 0
  {
    if Alloc(shdrs[i]) {
      PaddedRounds(Offset(shdrs, i), shdrs[i].addralign);
    }
  }

  /** Allocatable sections get disjoint, aligned ranges inside the allocation. */
  lemma PlacesFit(shdrs: seq<Shdr>, i: nat, j: nat)
    requires i < |shdrs| && j < |shdrs| && Alloc(shdrs[i]) && Alloc(shdrs[j]) && Aligned(shdrs)
    ensures Place(shdrs, i) + shdrs[i].size <= TotalSize(shdrs)
    ensures i < j ==> Place(shdrs, i) + shdrs[i].size <= Place(shdrs, j)
    ensures shdrs[i].addralign > 1 ==> Place(shdrs, i) % shdrs[i].addralign == 0
  {
    PaddedUp(shdrs, i);
    PaddedUp(shdrs, j);
    OffsetGrows(shdrs, i + 1, |shdrs|);
    if i < j { OffsetGrows(shdrs, i + 1, j); }
  }

  /** An allocatable section starts at the least multiple of its alignment that is not below the end of the last
      allocatable section before it, or below 0; the total is the end of the last one. */
  lemma PlaceLeast(shdrs: seq<Shdr>, i: nat, p: nat)
    requires i < |shdrs| && Alloc(shdrs[i]) && Aligned(shdrs)
    requires Offset(shdrs, i) <= p && (shdrs[i].addralign > 1 ==> p % shdrs[i].addralign == 0)
    ensures Offset(shdrs, i) <= Place(shdrs, i) <= p
  {
    assert shdrs[i] in shdrs;
    var a, x := shdrs[i].addralign, Offset(shdrs, i);
    PaddedRounds(x, a);
    if a > 1 && Place(shdrs, i) > p {
      NoMultipleBetween(Place(shdrs, i), p, a);
    }
  }

  lemma NoMultipleBetween(x: nat, y: nat, a: nat)
    requires a > 0 && x % a == 0 && y % a == 0 && y < x
    ensures x >= y + a
  {
    var q, r := x / a, y / a;
    assert x == a * q && y == a * r;
    if q <= r { MulMono(a, q, r); } else { MulMono(a, r + 1, q); }
  }

  /** The offset before section `n` is the end of the last allocatable section before it ... */
  lemma {:induction false} OffsetIsEnd(shdrs: seq<Shdr>, k: nat, n: nat)
    requires k < n <= |shdrs| && Alloc(shdrs[k]) && forall j :: k < j < n ==> !Alloc(shdrs[j])
    ensures Offset(shdrs, n) == Place(shdrs, k) + shdrs[k].size
  {
    hide Padded, Alloc;
    if k < n - 1 { OffsetIsEnd(shdrs, k, n - 1); }
  }

  /** ... or 0 without one. */
  lemma {:induction false} OffsetIsZero(shdrs: seq<Shdr>, n: nat)
    requires n <= |shdrs| && forall j :: 0 <= j < n ==> !Alloc(shdrs[j])
    ensures Offset(shdrs, n) == 0
  {
    hide Padded, Alloc;
    if n > 0 { OffsetIsZero(shdrs, n - 1); }
  }

  /** There is something to allocate exactly if some allocatable section is not empty. */
  lemma {:induction false} SizePositive(shdrs: seq<Shdr>, n: nat)
    requires n <= |shdrs| && Aligned(shdrs)
    ensures Offset(shdrs, n) > 0 <==> exists k :: 0 <= k < n && Alloc(shdrs[k]) && shdrs[k].size > 0
  {
    if n > 0 {
      SizePositive(shdrs, n - 1);
      assert shdrs[n - 1] in shdrs;
      if Alloc(shdrs[n - 1]) {
        PaddedRounds(Offset(shdrs, n - 1), shdrs[n - 1].addralign);
        if Offset(shdrs, n - 1) == 0 { PaddedZero(shdrs[n - 1].addralign); }
      }
    }
  }

  lemma PaddedZero(a: nat)
    requires a > 1 ==> PowerOfTwo(a)
    ensures Padded(0, a) == 0
  {
    PaddedRounds(0, a);
    if a > 1 && Padded(0, a) > 0 { NoMultipleBetween(Padded(0, a), 0, a); }
  }

  /** The address of a section is aligned exactly if the base of the allocation is: the offset always is. */
  lemma AddressAligned(shdrs: seq<Shdr>, i: nat, base: nat)
    requires i < |shdrs| && Alloc(shdrs[i]) && shdrs[i].addralign > 1 && Aligned(shdrs)
    ensures (base + Place(shdrs, i)) % shdrs[i].addralign == 0 <==> base % shdrs[i].addralign == 0
  {
    PaddedUp(shdrs, i);
    SumDivisible(base, Place(shdrs, i), shdrs[i].addralign);
  }

  /** With a base that is a multiple of 8 but not of 16, as the first payload of the heap is, a section is
      aligned exactly if it asks for at most 8. */
  lemma AlignedUpToEight(shdrs: seq<Shdr>, i: nat, base: nat)
    requires i < |shdrs| && Alloc(shdrs[i]) && shdrs[i].addralign > 1 && Aligned(shdrs) && base % 16 == 8
    ensures (base + Place(shdrs, i)) % shdrs[i].addralign == 0 <==> shdrs[i].addralign <= 8
  {
    hide Place;
    AddressAligned(shdrs, i, base);
    assert shdrs[i] in shdrs;
    EightDivides(shdrs[i].addralign, base);
  }

  lemma EightDivides(a: nat, base: nat)
    requires a > 1 && PowerOfTwo(a) && base % 16 == 8
    ensures base % a == 0 <==> a <= 8
  {
    var k: nat :| a == Pow2(k);
    if k >= 4 {
      Pow2Sum(4, k - 4);
      assert Pow2(4) == 16 && a >= 16;
      if base % a == 0 {
        SixteenFactor(base / a, Pow2(k - 4), base);
      }
    } else {
      assert Pow2(1) == 2 && Pow2(2) == 4 && Pow2(3) == 8;
    }
  }

  lemma SixteenFactor(q: nat, n: nat, base: nat)
    requires base == q * (16 * n)
    ensures base % 16 == 0
  {
    assert base == 16 * (q * n);
    ModUnique(base, 16, q * n, 0);
  }

  lemma SumDivisible(x: nat, y: nat, a: nat)
    requires a > 0 && y % a == 0
    ensures (x + y) % a == 0 <==> x % a == 0
  {
    var q := x / a;
    var p := y / a;
    assert x == a * q + x % a && y == a * p;
    assert x + y == a * (q + p) + x % a;
    ModUnique(x + y, a, q + p, x % a);
  }

  /** A section whose bytes the file must hold lies inside the file. */
  predicate InFile(sh: Shdr, fileSize: nat) {
    sh.stype == SHT_NOBITS || (sh.offset <= fileSize && sh.size <= fileSize - sh.offset)
  }

  predicate Placeable(shdrs: seq<Shdr>, fileSize: nat) {
    forall sh :: sh in shdrs && Alloc(sh) ==> InFile(sh, fileSize)
  }

  /** The sizing pass: `valid` is false where the loader returns NULL. */
  method SizePass(shdrs: seq<Shdr>, fileSize: nat) returns (valid: bool, total: nat)
    ensures valid <==> Placeable(shdrs, fileSize)
    ensures valid ==> total == TotalSize(shdrs)
  {
    total := 0;
    for i := 0 to |shdrs|
      invariant total == Offset(shdrs, i)
      invariant forall k :: 0 <= k < i && Alloc(shdrs[k]) ==> InFile(shdrs[k], fileSize)
    {
      if Alloc(shdrs[i]) {
        if shdrs[i].stype != SHT_NOBITS && (shdrs[i].offset > fileSize || shdrs[i].size > fileSize - shdrs[i].offset) {
          return false, 0;
        }
        if shdrs[i].addralign > 1 {
          total := AndNot(total + shdrs[i].addralign - 1, shdrs[i].addralign - 1);
        }
        total := total + shdrs[i].size;
      }
    }
    valid := true;
  }

  /** The byte a section contributes at position `j`. */
  function SectionByte(file: seq<byte>, sh: Shdr, j: nat): byte
    requires InFile(sh, |file|) && j < sh.size
  {
    if sh.stype == SHT_NOBITS then 0 else file[sh.offset + j]
  }

  /** The image holds a section from `at` on. */
  ghost predicate Holds(image: seq<byte>, file: seq<byte>, sh: Shdr, at: nat)
    requires InFile(sh, |file|)
  {
    at + sh.size <= |image| && forall k :: at <= k < at + sh.size ==> image[k] == SectionByte(file, sh, k - at)
  }

  /** The first `n` sections have been copied to their places. */
  ghost predicate Placed(image: seq<byte>, file: seq<byte>, shdrs: seq<Shdr>, n: nat)
    requires n <= |shdrs| && Placeable(shdrs, |file|)
  {
    forall i :: 0 <= i < n && Alloc(shdrs[i]) ==> Holds(image, file, shdrs[i], Place(shdrs, i))
  }

  /** The placing pass: copies every section and reports the address of each allocatable one. */
  method PlacePass(file: seq<byte>, shdrs: seq<Shdr>, base: nat, image: array<byte>) returns (addrs: seq<nat>, end: nat)
    requires Aligned(shdrs) && Placeable(shdrs, |file|) && image.Length == TotalSize(shdrs)
    modifies image
    ensures end == TotalSize(shdrs) && Placed(image[..], file, shdrs, |shdrs|)
    ensures |addrs| == |shdrs| && forall i :: 0 <= i < |shdrs| && Alloc(shdrs[i]) ==> addrs[i] == base + Place(shdrs, i)
  {
    addrs, end := [], 0;
    for i := 0 to |shdrs|
      invariant end == Offset(shdrs, i) && Placed(image[..], file, shdrs, i)
      invariant |addrs| == i && forall k :: 0 <= k < i && Alloc(shdrs[k]) ==> addrs[k] == base + Place(shdrs, k)
    {
      if Alloc(shdrs[i]) {
        if shdrs[i].addralign > 1 {
          end := AndNot(end + shdrs[i].addralign - 1, shdrs[i].addralign - 1);
        }
        addrs := addrs + [base + end];
        CopySection(file, shdrs, i, image);
        end := end + shdrs[i].size;
      } else {
        addrs := addrs + [0];
      }
    }
  }

  /** The two copy loops of the placing pass. */
  method CopySection(file: seq<byte>, shdrs: seq<Shdr>, i: nat, image: array<byte>)
    requires Aligned(shdrs) && Placeable(shdrs, |file|) && image.Length == TotalSize(shdrs)
    requires i < |shdrs| && Alloc(shdrs[i]) && Placed(image[..], file, shdrs, i)
    modifies image
    ensures Placed(image[..], file, shdrs, i + 1)
  {
    PlacesFit(shdrs, i, i);
    ghost var was := image[..];
    FillSection(file, shdrs[i], Place(shdrs, i), image);
    PlacedNext(was, image[..], file, shdrs, i);
  }

  method FillSection(file: seq<byte>, sh: Shdr, at: nat, image: array<byte>)
    requires InFile(sh, |file|) && at + sh.size <= image.Length
    modifies image
    ensures forall k :: 0 <= k < image.Length && !(at <= k < at + sh.size) ==> image[k] == old(image[k])
    ensures Holds(image[..], file, sh, at)
  {
    if sh.stype == SHT_NOBITS {
      for j := 0 to sh.size
        invariant forall k :: 0 <= k < image.Length && !(at <= k < at + j) ==> image[k] == old(image[k])
        invariant forall k :: at <= k < at + j ==> image[k] == 0
      {
        image[at + j] := 0;
      }
    } else {
      for j := 0 to sh.size
        invariant forall k :: 0 <= k < image.Length && !(at <= k < at + j) ==> image[k] == old(image[k])
        invariant forall k :: at <= k < at + j ==> image[k] == file[sh.offset + (k - at)]
      {
        image[at + j] := file[sh.offset + j];
      }
    }
  }

  lemma PlacedNext(was: seq<byte>, now: seq<byte>, file: seq<byte>, shdrs: seq<Shdr>, i: nat)
    requires Aligned(shdrs) && Placeable(shdrs, |file|) && |was| == |now| == TotalSize(shdrs)
    requires i < |shdrs| && Alloc(shdrs[i]) && Placed(was, file, shdrs, i)
    requires Place(shdrs, i) + shdrs[i].size <= |now| && InFile(shdrs[i], |file|)
    requires forall k :: 0 <= k < Place(shdrs, i) ==> now[k] == was[k]
    requires Holds(now, file, shdrs[i], Place(shdrs, i))
    ensures Placed(now, file, shdrs, i + 1)
  {
    hide Place, TotalSize, Holds, InFile, Aligned;
    forall k | 0 <= k < i + 1 && Alloc(shdrs[k])
      ensures Holds(now, file, shdrs[k], Place(shdrs, k))
    {
      if k < i {
        PlacesFit(shdrs, k, i);
        HoldsStill(was, now, file, shdrs[k], Place(shdrs, k), Place(shdrs, i));
      }
    }
  }

  lemma HoldsStill(was: seq<byte>, now: seq<byte>, file: seq<byte>, sh: Shdr, at: nat, end: nat)
    requires InFile(sh, |file|) && Holds(was, file, sh, at) && |now| == |was| && at + sh.size <= end
    requires forall k :: 0 <= k < end && k < |was| ==> now[k] == was[k]
    ensures Holds(now, file, sh, at)
  {
  }
}
