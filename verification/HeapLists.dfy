/** The kernel heap as a list of blocks in address order: its canonical form, and what each
    allocation and each free does to it. */
module HeapLists {
  import Bytes

  /** `sizeof(heap_block_t)` */
  const HEADER := 24

  const HEAP_START := 0xFFFF_FFFF_C000_0000

  function AlignUp(x: nat, align: nat): nat
    requires align > 0
  {
    (x + align - 1) / align * align
  }

  /** The least multiple that is not below `x`. */
  lemma AlignUpIs(x: nat, align: nat)
    requires align > 0
    ensures x <= AlignUp(x, align) < x + align && AlignUp(x, align) % align == 0
  {
    var y := x + align - 1;
    var q := y / align;
    assert y == align * q + y % align;
    assert AlignUp(x, align) == align * q;
    MultipleOf(q, align);
  }

  lemma MultipleOf(q: nat, a: nat)
    requires a > 0
    ensures q * a % a == 0 && a * q == q * a
  {
    Bytes.ModUnique(q * a, a, q, 0);
  }

  /** A block: its header address, the size of its payload, and whether it is free. */
  datatype Block = Block(addr: nat, size: nat, free: bool) {
    function Payload(): nat { addr + HEADER }

    function End(): nat { addr + HEADER + size }
  }

  /** Headers and payloads fill `[lo, hi)` without gaps, in address order. */
  ghost predicate Tiled(s: seq<Block>, lo: nat, hi: nat) {
    && (s == [] ==> lo == hi)
    && (s != [] ==> s[0].addr == lo && s[|s| - 1].End() == hi)
    && (forall i, j :: 0 <= i < j < |s| && j == i + 1 ==> s[j].addr == s[i].End())
  }

  ghost predicate NoAdjacentFree(s: seq<Block>) {
    forall i, j :: 0 <= i < j < |s| && j == i + 1 ==> !(s[i].free && s[j].free)
  }

  ghost predicate Canonical(s: seq<Block>, lo: nat, hi: nat) {
    Tiled(s, lo, hi) && NoAdjacentFree(s)
  }

  function Live(s: seq<Block>): set<Block> {
    set b | b in s && !b.free
  }

  // ----- geometry

  lemma {:induction false} Ordered(s: seq<Block>, lo: nat, hi: nat, i: nat, j: nat)
    requires Tiled(s, lo, hi) && i < j < |s|
    ensures s[i].End() <= s[j].addr
    decreases j
  {
    if i < j - 1 {
      Ordered(s, lo, hi, i, j - 1);
    }
  }

  lemma Bounds(s: seq<Block>, lo: nat, hi: nat, i: nat)
    requires Tiled(s, lo, hi) && i < |s|
    ensures lo <= s[i].addr && s[i].End() <= hi
  {
    if i > 0 { Ordered(s, lo, hi, 0, i); }
    if i < |s| - 1 { Ordered(s, lo, hi, i, |s| - 1); }
  }

  /** No header, free or live, lies inside a live payload, and live payloads are disjoint. */
  lemma HeadersOutsidePayloads(s: seq<Block>, lo: nat, hi: nat, i: nat, j: nat)
    requires Tiled(s, lo, hi) && i < |s| && j < |s| && i != j
    ensures s[j].addr + HEADER <= s[i].Payload() || s[i].End() <= s[j].addr
    ensures s[i].End() <= s[j].Payload() || s[j].End() <= s[i].Payload()
  {
    if i < j { Ordered(s, lo, hi, i, j); } else { Ordered(s, lo, hi, j, i); }
  }

  lemma AddrUnique(s: seq<Block>, lo: nat, hi: nat, i: nat, j: nat)
    requires Tiled(s, lo, hi) && i < |s| && j < |s| && s[i].addr == s[j].addr
    ensures i == j
  {
    if i < j { Ordered(s, lo, hi, i, j); } else if j < i { Ordered(s, lo, hi, j, i); }
  }

  // ----- the canonical form

  /** A free block of one list cannot be shorter than the free block of the other at the same place. */
  lemma NotShorter(s: seq<Block>, t: seq<Block>, lo: nat, hi: nat, k: nat)
    requires Canonical(s, lo, hi) && Canonical(t, lo, hi) && Live(s) <= Live(t)
    requires k < |s| && k < |t| && s[k].addr == t[k].addr && s[k].free && t[k].free
    ensures s[k].size >= t[k].size
  {
    if s[k].size < t[k].size {
      Bounds(t, lo, hi, k);
      assert k + 1 < |s|;
      var next := s[k + 1];
      assert next in Live(s);
      var j :| 0 <= j < |t| && t[j] == next;
      if j > k { Ordered(t, lo, hi, k, j); } else if j < k { Ordered(t, lo, hi, j, k); }
    }
  }

  lemma SameBlock(s: seq<Block>, t: seq<Block>, lo: nat, hi: nat, k: nat)
    requires Canonical(s, lo, hi) && Canonical(t, lo, hi) && Live(s) == Live(t)
    requires k < |s| && k < |t| && s[k].addr == t[k].addr
    ensures s[k] == t[k]
  {
    if !s[k].free {
      assert s[k] in Live(t);
      var j :| 0 <= j < |t| && t[j] == s[k];
      AddrUnique(t, lo, hi, j, k);
    } else if !t[k].free {
      assert t[k] in Live(s);
      var j :| 0 <= j < |s| && s[j] == t[k];
      AddrUnique(s, lo, hi, j, k);
    } else {
      NotShorter(s, t, lo, hi, k);
      NotShorter(t, s, lo, hi, k);
    }
  }

  lemma {:induction false} SamePrefix(s: seq<Block>, t: seq<Block>, lo: nat, hi: nat, k: nat)
    requires Canonical(s, lo, hi) && Canonical(t, lo, hi) && Live(s) == Live(t) && k <= |s|
    ensures k <= |t| && s[..k] == t[..k]
  {
    if k > 0 {
      SamePrefix(s, t, lo, hi, k - 1);
      Bounds(s, lo, hi, k - 1);
      if k > 1 {
        assert s[k - 2] == s[..k - 1][k - 2] == t[..k - 1][k - 2] == t[k - 2];
      }
      assert k - 1 < |t|;
      SameBlock(s, t, lo, hi, k - 1);
    }
  }

  /** The list is determined by its bounds and its live blocks. */
  lemma CanonicalUnique(s: seq<Block>, t: seq<Block>, lo: nat, hi: nat)
    requires Canonical(s, lo, hi) && Canonical(t, lo, hi) && Live(s) == Live(t)
    ensures s == t
  {
    SamePrefix(s, t, lo, hi, |s|);
    SamePrefix(t, s, lo, hi, |t|);
  }

  // ----- allocation

  predicate Fits(b: Block, size: nat) { b.free && b.size >= size }

  /** The block at `k` is the first that fits. */
  ghost predicate FirstFit(s: seq<Block>, size: nat, k: nat) {
    k < |s| && Fits(s[k], size) && forall i :: 0 <= i < k ==> !Fits(s[i], size)
  }

  ghost predicate NoFit(s: seq<Block>, size: nat) {
    forall i :: 0 <= i < |s| ==> !Fits(s[i], size)
  }

  /** The payload handed out from a free block: split off if a header and 16 bytes are left over. */
  function Cut(blockSize: nat, size: nat): nat {
    if blockSize >= size + HEADER + 16 then size else blockSize
  }

  /** The pages added when nothing fits. */
  function Growth(size: nat): nat { AlignUp(size + HEADER, 4096) }

  /** What `kmalloc` of a non-zero `request` does: the first fitting block is cut, or the heap grows
      by whole pages and the new block is cut. By uniqueness of the canonical form this determines
      the new list. */
  ghost predicate AllocStep(s: seq<Block>, hi: nat, s': seq<Block>, hi': nat, request: nat, p: nat) {
    var size := AlignUp(request, 16);
    Canonical(s', HEAP_START, hi') &&
    if NoFit(s, size) then
      hi' == hi + Growth(size) && p == hi + HEADER
      && Live(s') == Live(s) + {Block(hi, Cut(Growth(size) - HEADER, size), false)}
    else
      hi' == hi && exists k: nat :: FirstFit(s, size, k) && p == s[k].Payload()
                               && Live(s') == Live(s) + {Block(s[k].addr, Cut(s[k].size, size), false)}
  }

  /** What `kfree` of a live payload does. */
  ghost predicate FreeStep(s: seq<Block>, hi: nat, s': seq<Block>, p: nat) {
    && Canonical(s', HEAP_START, hi)
    && exists b :: b in Live(s) && b.Payload() == p && Live(s') == Live(s) - {b}
  }

  /** The blocks that replace the free block `b` when `size` bytes are taken from it. */
  function Pieces(b: Block, size: nat): seq<Block>
    requires b.size >= size
  {
    if b.size >= size + HEADER + 16 then [Block(b.addr, size, false), Block(b.addr + HEADER + size, b.size - size - HEADER, true)]
    else [b.(free := false)]
  }

  /** Cutting the block at `k`. */
  function Taken(s: seq<Block>, k: nat, size: nat): seq<Block>
    requires k < |s| && s[k].size >= size
  {
    s[..k] + Pieces(s[k], size) + s[k + 1..]
  }

  lemma TiledJoin(a: seq<Block>, b: seq<Block>, lo: nat, mid: nat, hi: nat)
    requires Tiled(a, lo, mid) && Tiled(b, mid, hi)
    ensures Tiled(a + b, lo, hi)
  {
  }

  lemma TiledParts(s: seq<Block>, lo: nat, hi: nat, k: nat)
    requires Tiled(s, lo, hi) && k < |s|
    ensures Tiled(s[..k], lo, s[k].addr) && Tiled(s[k + 1..], s[k].End(), hi)
  {
  }

  lemma NoAdjacentJoin(a: seq<Block>, b: seq<Block>)
    requires NoAdjacentFree(a) && NoAdjacentFree(b)
    requires a != [] && b != [] ==> !(a[|a| - 1].free && b[0].free)
    ensures NoAdjacentFree(a + b)
  {
  }

  /** No two adjacent free blocks, but perhaps next to block `k`. */
  ghost predicate NoAdjacentFreeBut(s: seq<Block>, k: nat) {
    forall i, j :: 0 <= i < j < |s| && j == i + 1 && i != k && j != k ==> !(s[i].free && s[j].free)
  }

  lemma NoAdjacentParts(s: seq<Block>, k: nat)
    requires NoAdjacentFreeBut(s, k) && k < |s|
    ensures NoAdjacentFree(s[..k]) && NoAdjacentFree(s[k + 1..])
  {
  }

  lemma TakenCanonical(s: seq<Block>, lo: nat, hi: nat, k: nat, size: nat)
    requires Tiled(s, lo, hi) && k < |s| && Fits(s[k], size) && NoAdjacentFreeBut(s, k)
    requires k + 1 < |s| ==> !s[k + 1].free
    ensures Canonical(Taken(s, k, size), lo, hi)
    ensures Live(Taken(s, k, size)) == Live(s) + {Block(s[k].addr, Cut(s[k].size, size), false)}
  {
    LiveOfTaken(s, k, size);
    hide Tiled, NoAdjacentFree, Live;
    var mid := Pieces(s[k], size);
    assert Tiled(mid, s[k].addr, s[k].End()) && NoAdjacentFree(mid) by { PiecesTiled(s[k], size); }
    TiledParts(s, lo, hi, k);
    NoAdjacentParts(s, k);
    TiledJoin(s[..k], mid, lo, s[k].addr, s[k].End());
    TiledJoin(s[..k] + mid, s[k + 1..], lo, s[k].End(), hi);
    NoAdjacentJoin(s[..k], mid);
    NoAdjacentJoin(s[..k] + mid, s[k + 1..]);
  }

  lemma PiecesTiled(b: Block, size: nat)
    requires b.size >= size
    ensures Tiled(Pieces(b, size), b.addr, b.End()) && NoAdjacentFree(Pieces(b, size))
  {
  }

  lemma LiveOfTaken(s: seq<Block>, k: nat, size: nat)
    requires k < |s| && Fits(s[k], size)
    ensures Live(Taken(s, k, size)) == Live(s) + {Block(s[k].addr, Cut(s[k].size, size), false)}
  {
    var got := Block(s[k].addr, Cut(s[k].size, size), false);
    assert Pieces(s[k], size)[0] == got;
    assert s == s[..k] + [s[k]] + s[k + 1..];
  }

  /** Merging the block at `k` with its right neighbour. */
  function Merged(s: seq<Block>, k: nat): seq<Block>
    requires k + 1 < |s|
  {
    s[..k] + [Block(s[k].addr, s[k].size + HEADER + s[k + 1].size, s[k].free)] + s[k + 2..]
  }

  lemma MergedTiled(s: seq<Block>, lo: nat, hi: nat, k: nat)
    requires Tiled(s, lo, hi) && k + 1 < |s| && s[k].free && s[k + 1].free
    ensures Tiled(Merged(s, k), lo, hi) && Live(Merged(s, k)) == Live(s)
    ensures |Merged(s, k)| == |s| - 1 && Merged(s, k)[..k] == s[..k] && Merged(s, k)[k].free
  {
    var t := Merged(s, k);
    assert forall i :: 0 <= i < |t| ==> t[i] == if i < k then s[i] else if i == k
      then Block(s[k].addr, s[k].size + HEADER + s[k + 1].size, true) else s[i + 1];
    assert s == s[..k] + [s[k], s[k + 1]] + s[k + 2..];
  }

  /** Marking a live block free leaves the other live blocks. */
  lemma FreedTiled(s: seq<Block>, lo: nat, hi: nat, k: nat)
    requires Tiled(s, lo, hi) && k < |s| && !s[k].free
    ensures Tiled(s[k := s[k].(free := true)], lo, hi)
    ensures Live(s[k := s[k].(free := true)]) == Live(s) - {s[k]}
  {
    var t := s[k := s[k].(free := true)];
    forall b | b in Live(t)
      ensures b in Live(s) && b != s[k]
    {
      var i :| 0 <= i < |t| && t[i] == b;
      if s[i] == s[k] { AddrUnique(s, lo, hi, i, k); }
    }
    forall b | b in Live(s) - {s[k]}
      ensures b in Live(t)
    {
      var i :| 0 <= i < |s| && s[i] == b;
      assert t[i] == b;
    }
  }

  /** A block appended at the end. */
  lemma AppendTiled(s: seq<Block>, lo: nat, hi: nat, size: nat)
    requires Tiled(s, lo, hi)
    ensures Tiled(s + [Block(hi, size, true)], lo, hi + HEADER + size)
    ensures Live(s + [Block(hi, size, true)]) == Live(s)
  {
  }

  lemma AppendedBut(s: seq<Block>, b: Block)
    requires NoAdjacentFree(s)
    ensures NoAdjacentFreeBut(s + [b], |s|)
  {
  }

  // ----- runs

  /** `b` is the one block that is live in `s'` and was not in `s`; it holds `request` bytes at `p`
      and wastes less than a header and 16 bytes. */
  ghost predicate Allocated(s: seq<Block>, s': seq<Block>, b: Block, request: nat, p: nat) {
    && Live(s') == Live(s) + {b} && b !in Live(s) && b.Payload() == p
    && request <= b.size < AlignUp(request, 16) + HEADER + 16
  }

  /** An allocation adds exactly one live block, big enough and not much bigger. */
  lemma AllocSize(s: seq<Block>, hi: nat, s': seq<Block>, hi': nat, request: nat, p: nat)
    requires request > 0 && Canonical(s, HEAP_START, hi) && AllocStep(s, hi, s', hi', request, p)
    ensures exists b :: Allocated(s, s', b, request, p)
    ensures hi <= hi' <= hi + Growth(AlignUp(request, 16))
  {
    var size := AlignUp(request, 16);
    if NoFit(s, size) {
      var b := Block(hi, Cut(Growth(size) - HEADER, size), false);
      if b in Live(s) {
        var j :| 0 <= j < |s| && s[j] == b;
        Bounds(s, HEAP_START, hi, j);
      }
      SplitBound(Growth(size) - HEADER, size);
      assert Allocated(s, s', b, request, p);
    } else {
      var k: nat :| FirstFit(s, size, k) && p == s[k].Payload() && Live(s') == Live(s) + {Block(s[k].addr, Cut(s[k].size, size), false)};
      var b := Block(s[k].addr, Cut(s[k].size, size), false);
      if b in Live(s) {
        var j :| 0 <= j < |s| && s[j] == b;
        AddrUnique(s, HEAP_START, hi, j, k);
      }
      SplitBound(s[k].size, size);
      assert Allocated(s, s', b, request, p);
    }
  }

  /** Freeing a payload takes out the one live block that has it. */
  lemma FreeRemoves(s: seq<Block>, hi: nat, s': seq<Block>, p: nat, b: Block)
    requires Canonical(s, HEAP_START, hi) && FreeStep(s, hi, s', p) && b in Live(s) && b.Payload() == p
    ensures Live(s') == Live(s) - {b}
  {
    var c :| c in Live(s) && c.Payload() == p && Live(s') == Live(s) - {c};
    LiveAddrUnique(s, hi, b, c);
  }

  lemma SplitBound(blockSize: nat, size: nat)
    requires blockSize >= size
    ensures size <= Cut(blockSize, size) < size + HEADER + 16
  {
  }

  /** The heap after it grew from `hi` to `hi'` without a live block in the new part. */
  function Extended(s: seq<Block>, hi: nat, hi': nat): seq<Block>
    requires hi + HEADER <= hi'
  {
    if s != [] && s[|s| - 1].free then s[|s| - 1 := s[|s| - 1].(size := s[|s| - 1].size + (hi' - hi))]
    else s + [Block(hi, hi' - hi - HEADER, true)]
  }

  lemma ExtendedCanonical(s: seq<Block>, hi: nat, hi': nat)
    requires Canonical(s, HEAP_START, hi) && hi + HEADER <= hi'
    ensures Canonical(Extended(s, hi, hi'), HEAP_START, hi') && Live(Extended(s, hi, hi')) == Live(s)
  {
    if s != [] && s[|s| - 1].free {
      var t := Extended(s, hi, hi');
      assert s == s[..|s| - 1] + [s[|s| - 1]] && t == s[..|s| - 1] + [t[|s| - 1]];
    }
  }

  /** Freeing what was just allocated restores the exact prior list; if the heap had to grow, the
      prior list with the new pages as free space at its end. */
  lemma AllocThenFree(s: seq<Block>, hi: nat, s': seq<Block>, hi': nat, request: nat, p: nat, s'': seq<Block>)
    requires request > 0 && Canonical(s, HEAP_START, hi)
    requires AllocStep(s, hi, s', hi', request, p) && FreeStep(s', hi', s'', p)
    ensures hi' == hi ==> s'' == s
    ensures hi' != hi ==> hi + HEADER <= hi' && s'' == Extended(s, hi, hi')
  {
    AllocSize(s, hi, s', hi', request, p);
    var b :| Allocated(s, s', b, request, p);
    FreeRemoves(s', hi', s'', p, b);
    assert Live(s'') == Live(s);
    if hi' == hi {
      CanonicalUnique(s'', s, HEAP_START, hi);
    } else {
      ExtendedCanonical(s, hi, hi');
      CanonicalUnique(s'', Extended(s, hi, hi'), HEAP_START, hi');
    }
  }

  lemma LiveAddrUnique(s: seq<Block>, hi: nat, b: Block, c: Block)
    requires Tiled(s, HEAP_START, hi) && b in Live(s) && c in Live(s) && b.addr == c.addr
    ensures b == c
  {
    var i :| 0 <= i < |s| && s[i] == b;
    var j :| 0 <= j < |s| && s[j] == c;
    AddrUnique(s, HEAP_START, hi, i, j);
  }

  ghost predicate FreeRun(trace: seq<seq<Block>>, hi: nat, ps: seq<nat>) {
    && |trace| == |ps| + 1
    && Canonical(trace[0], HEAP_START, hi)
    && forall i :: 0 <= i < |ps| ==> FreeStep(trace[i], hi, trace[i + 1], ps[i])
  }

  /** A run of frees takes exactly the blocks with those payloads out of the live set. */
  lemma {:induction false} RunLive(trace: seq<seq<Block>>, hi: nat, ps: seq<nat>)
    requires FreeRun(trace, hi, ps)
    ensures Canonical(trace[|ps|], HEAP_START, hi)
    ensures forall b :: b in Live(trace[|ps|]) <==> b in Live(trace[0]) && b.Payload() !in ps
  {
    if ps != [] {
      var n := |ps| - 1;
      assert trace[..|ps|][n] == trace[n];
      RunLive(trace[..|ps|], hi, ps[..n]);
      assert FreeStep(trace[n], hi, trace[n + 1], ps[n]);
      var c :| c in Live(trace[n]) && c.Payload() == ps[n] && Live(trace[n + 1]) == Live(trace[n]) - {c};
      assert ps == ps[..n] + [ps[n]];
      forall b | b in Live(trace[n]) && b.Payload() == ps[n]
        ensures b == c
      {
        LiveAddrUnique(trace[n], hi, b, c);
      }
    }
  }

  /** Freeing a set of live blocks in any order gives the same list. */
  lemma FreeOrderIrrelevant(t1: seq<seq<Block>>, ps1: seq<nat>, t2: seq<seq<Block>>, ps2: seq<nat>, hi: nat)
    requires FreeRun(t1, hi, ps1) && FreeRun(t2, hi, ps2) && t1[0] == t2[0]
    requires forall p :: p in ps1 <==> p in ps2
    ensures t1[|ps1|] == t2[|ps2|]
  {
    RunLive(t1, hi, ps1);
    RunLive(t2, hi, ps2);
    CanonicalUnique(t1[|ps1|], t2[|ps2|], HEAP_START, hi);
  }

  /** Freeing every live block leaves one free block that covers the whole heap. */
  lemma FreeAll(trace: seq<seq<Block>>, hi: nat, ps: seq<nat>)
    requires FreeRun(trace, hi, ps) && trace[0] != []
    requires forall b :: b in Live(trace[0]) ==> b.Payload() in ps
    ensures HEAP_START + HEADER <= hi && trace[|ps|] == [Block(HEAP_START, hi - HEAP_START - HEADER, true)]
  {
    RunLive(trace, hi, ps);
    Bounds(trace[0], HEAP_START, hi, 0);
    CanonicalUnique(trace[|ps|], [Block(HEAP_START, hi - HEAP_START - HEADER, true)], HEAP_START, hi);
  }

  // ----- alignment

  /** A canonical list whose live blocks start at multiples of 8 and have sizes that are. */
  ghost predicate AlignedHeap(s: seq<Block>, hi: nat) {
    Canonical(s, HEAP_START, hi) && hi % 8 == 0 && forall b :: b in Live(s) ==> AlignedBlock(b)
  }

  predicate AlignedBlock(b: Block) { b.addr % 8 == 0 && b.size % 8 == 0 }

  /** Then so do and have the free blocks. */
  lemma {:induction false} StartsAligned(s: seq<Block>, hi: nat, i: nat)
    requires AlignedHeap(s, hi) && i < |s|
    ensures s[i].addr % 8 == 0
  {
    if i > 0 {
      StartsAligned(s, hi, i - 1);
      if !s[i - 1].free {
        assert s[i - 1] in Live(s) && AlignedBlock(s[i - 1]);
      } else {
        assert s[i] in Live(s) && AlignedBlock(s[i]);
      }
    }
  }

  lemma BlocksAligned(s: seq<Block>, hi: nat, i: nat)
    requires AlignedHeap(s, hi) && i < |s|
    ensures AlignedBlock(s[i])
  {
    StartsAligned(s, hi, i);
    if i + 1 < |s| { StartsAligned(s, hi, i + 1); }
  }

  /** Every allocation keeps that and hands out a multiple of 8. */
  lemma AllocAligned(s: seq<Block>, hi: nat, s': seq<Block>, hi': nat, request: nat, p: nat)
    requires AlignedHeap(s, hi) && request > 0 && AllocStep(s, hi, s', hi', request, p)
    ensures AlignedHeap(s', hi') && p % 8 == 0
  {
    hide AllocStep, Live, Canonical, AlignUp;
    AllocKeepsAligned(s, hi, s', hi', request, p);
    AllocSize(s, hi, s', hi', request, p);
    var b :| Allocated(s, s', b, request, p);
    assert b in Live(s') && AlignedBlock(b);
  }

  lemma AllocKeepsAligned(s: seq<Block>, hi: nat, s': seq<Block>, hi': nat, request: nat, p: nat)
    requires AlignedHeap(s, hi) && request > 0 && AllocStep(s, hi, s', hi', request, p)
    ensures AlignedHeap(s', hi')
  {
    hide Canonical, Live, AlignedHeap, AlignUp, Growth, Cut, AlignedBlock;
    var size := AlignUp(request, 16);
    if NoFit(s, size) {
      GrownAligned(s, hi, request);
      NewLive(s, hi, s', hi', Block(hi, Cut(Growth(size) - HEADER, size), false));
    } else {
      AlignedEnd(s, hi);
      RoundedSizes(request);
      var k: nat :| FirstFit(s, size, k) && Live(s') == Live(s) + {Block(s[k].addr, Cut(s[k].size, size), false)};
      BlocksAligned(s, hi, k);
      CutAligned(s[k], size);
      NewLive(s, hi, s', hi', Block(s[k].addr, Cut(s[k].size, size), false));
    }
  }

  lemma RoundedSizes(request: nat)
    ensures var size := AlignUp(request, 16); size % 8 == 0 && Growth(size) % 8 == 0 && Growth(size) >= HEADER
  {
    assert forall q: nat :: q * 16 % 8 == 0;
    assert forall q: nat :: q * 4096 % 8 == 0;
  }

  lemma AlignedEnd(s: seq<Block>, hi: nat)
    requires AlignedHeap(s, hi)
    ensures hi % 8 == 0
  {
  }

  lemma GrownAligned(s: seq<Block>, hi: nat, request: nat)
    requires AlignedHeap(s, hi)
    ensures var size := AlignUp(request, 16);
      Growth(size) >= HEADER && (hi + Growth(size)) % 8 == 0 && AlignedBlock(Block(hi, Cut(Growth(size) - HEADER, size), false))
  {
    hide AlignUp, Growth, Cut, Canonical, Live;
    RoundedSizes(request);
    CutAligned(Block(hi, Growth(AlignUp(request, 16)) - HEADER, false), AlignUp(request, 16));
  }

  lemma CutAligned(b: Block, size: nat)
    requires AlignedBlock(b) && size % 8 == 0
    ensures AlignedBlock(Block(b.addr, Cut(b.size, size), false))
  {
  }

  lemma NewLive(s: seq<Block>, hi: nat, s': seq<Block>, hi': nat, b: Block)
    requires AlignedHeap(s, hi) && Canonical(s', HEAP_START, hi') && hi' % 8 == 0
    requires Live(s') == Live(s) + {b} && AlignedBlock(b)
    ensures AlignedHeap(s', hi')
  {
    hide Canonical, Live;
  }

  lemma FreeAligned(s: seq<Block>, hi: nat, s': seq<Block>, p: nat)
    requires AlignedHeap(s, hi) && FreeStep(s, hi, s', p)
    ensures AlignedHeap(s', hi)
  {
  }

  datatype Op = Alloc(request: nat, p: nat) | Free(p: nat)

  datatype Snapshot = Snapshot(list: seq<Block>, hi: nat)

  ghost predicate OpStep(s: Snapshot, s': Snapshot, op: Op) {
    match op
    case Alloc(request, p) => request > 0 && AllocStep(s.list, s.hi, s'.list, s'.hi, request, p)
    case Free(p) => s'.hi == s.hi && FreeStep(s.list, s.hi, s'.list, p)
  }

  ghost predicate OpRun(trace: seq<Snapshot>, ops: seq<Op>) {
    |trace| == |ops| + 1 && forall i, j :: 0 <= i < |ops| && j == i + 1 ==> OpStep(trace[i], trace[j], ops[i])
  }

  /** Over every run of allocations and frees from an empty or initial heap, payloads are multiples of 8. */
  lemma {:induction false} RunAligned(trace: seq<Snapshot>, ops: seq<Op>, n: nat)
    requires OpRun(trace, ops) && n <= |ops| && AlignedHeap(trace[0].list, trace[0].hi)
    ensures AlignedHeap(trace[n].list, trace[n].hi)
    ensures n < |ops| && ops[n].Alloc? ==> ops[n].p % 8 == 0
  {
    hide AlignedHeap, AllocStep, FreeStep;
    if n > 0 {
      RunAligned(trace, ops, n - 1);
      StepAligned(trace[n - 1], trace[n], ops[n - 1]);
    }
    if n < |ops| {
      assert OpStep(trace[n], trace[n + 1], ops[n]);
      StepAligned(trace[n], trace[n + 1], ops[n]);
    }
  }

  lemma StepAligned(s: Snapshot, s': Snapshot, op: Op)
    requires OpStep(s, s', op) && AlignedHeap(s.list, s.hi)
    ensures AlignedHeap(s'.list, s'.hi) && (op.Alloc? ==> op.p % 8 == 0)
  {
    match op
    case Alloc(request, p) => AllocAligned(s.list, s.hi, s'.list, s'.hi, request, p);
    case Free(p) => FreeAligned(s.list, s.hi, s'.list, p);
  }

  /** But not of 16: the first allocation of a heap of one free block at its start never is. */
  lemma FirstPayload(hi: nat, s': seq<Block>, hi': nat, request: nat, p: nat)
    requires hi >= HEAP_START + HEADER && Fits(Block(HEAP_START, hi - HEAP_START - HEADER, true), AlignUp(request, 16))
    requires AllocStep([Block(HEAP_START, hi - HEAP_START - HEADER, true)], hi, s', hi', request, p)
    ensures p == HEAP_START + HEADER && p % 16 == 8
  {
    var s := [Block(HEAP_START, hi - HEAP_START - HEADER, true)];
    assert Fits(s[0], AlignUp(request, 16));
  }

  // ----- an allocation in numbers

  /** A free block that holds the request rounded up to `size`. */
  predicate Holds(b: Block, size: nat) { b.free && b.size >= size }

  /** The lowest free block that holds the request is taken, in one piece if fewer than 40 bytes would be left and
      cut to the rounded request otherwise; without one the heap grows by whole pages, and the first 24 bytes of
      a block are its header. */
  lemma AllocInNumbers(s: seq<Block>, hi: nat, s': seq<Block>, hi': nat, request: nat, size: nat, p: nat)
    requires request > 0 && Canonical(s, HEAP_START, hi) && AllocStep(s, hi, s', hi', request, p)
    requires size % 16 == 0 && request <= size < request + 16
    ensures (exists b :: b in s && Holds(b, size)) ==>
      hi' == hi && exists b :: b in s && Holds(b, size) && p == b.addr + 24 && (forall c :: c in s && Holds(c, size) ==> b.addr <= c.addr)
                               && Live(s') == Live(s) + {Block(b.addr, if b.size >= size + 40 then size else b.size, false)}
    ensures (forall b :: b in s ==> !Holds(b, size)) ==>
      p == hi + 24 && (hi' - hi) % 4096 == 0 && size + 24 <= hi' - hi < size + 24 + 4096
      && Live(s') == Live(s) + {Block(hi, if hi' - hi - 24 >= size + 40 then size else hi' - hi - 24, false)}
  {
    hide Canonical, Live, AlignUp;
    RoundedIs(request, size);
    AlignUpIs(size + HEADER, 4096);
    if NoFit(s, size) {
      assert forall b :: b in s ==> !Holds(b, size);
    } else {
      var k: nat :| FirstFit(s, size, k) && p == s[k].Payload() && Live(s') == Live(s) + {Block(s[k].addr, Cut(s[k].size, size), false)};
      assert s[k] in s && Holds(s[k], size);
      forall c | c in s && Holds(c, size)
        ensures s[k].addr <= c.addr
      {
        var j :| 0 <= j < |s| && s[j] == c;
        LaterIsHigher(s, hi, k, j);
      }
    }
  }

  lemma LaterIsHigher(s: seq<Block>, hi: nat, k: nat, j: nat)
    requires Canonical(s, HEAP_START, hi) && k <= j < |s|
    ensures s[k].addr <= s[j].addr
  {
    if k < j { Ordered(s, HEAP_START, hi, k, j); }
  }

  lemma RoundedIs(request: nat, size: nat)
    requires size % 16 == 0 && request <= size < request + 16
    ensures AlignUp(request, 16) == size
  {
  }
}
