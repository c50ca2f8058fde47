/** The kernel heap allocator: block headers in memory, linked by address and edited in place. */
module Heap {
  import opened Bytes
  import opened HeapLists
  import opened HeapPages
  import opened Paging
  import opened Mapping
  import opened Vmm
  import Frames = Pmm

  const NULL := 0

  /** `heap_block_t` */
  datatype Header = Header(size: nat, isFree: bool, next: nat)

  /** The address of block `i` of a list, or NULL past its end. */
  function AddrAt(s: seq<Block>, i: nat): nat {
    if i < |s| then s[i].addr else NULL
  }

  /** The headers in memory spell out the list, whose last block links to `next`. */
  ghost predicate LinkedTo(mem: map<nat, Header>, s: seq<Block>, next: nat) {
    && (forall i :: 0 <= i < |s| ==> s[i].addr in mem && mem[s[i].addr].size == s[i].size && mem[s[i].addr].isFree == s[i].free)
    && (forall i, j :: 0 <= i < j < |s| && j == i + 1 ==> mem[s[i].addr].next == s[j].addr)
    && (s != [] ==> mem[s[|s| - 1].addr].next == next)
  }

  ghost predicate Linked(mem: map<nat, Header>, s: seq<Block>) { LinkedTo(mem, s, NULL) }

  /** The address of the first block of a list that ends in `next`. */
  function First(s: seq<Block>, next: nat): nat {
    if s == [] then next else s[0].addr
  }

  lemma LinkedJoin(mem: map<nat, Header>, a: seq<Block>, b: seq<Block>, next: nat)
    ensures LinkedTo(mem, a + b, next) <==> LinkedTo(mem, a, First(b, next)) && LinkedTo(mem, b, next)
  {
    var s := a + b;
    if LinkedTo(mem, s, next) {
      assert forall i :: 0 <= i < |a| ==> a[i] == s[i];
      assert forall i :: 0 <= i < |b| ==> b[i] == s[|a| + i];
    }
  }

  /** Replacing the blocks `mid` of a linked list by `mid'`: the headers of the rest must be untouched. */
  lemma Relink(mem: map<nat, Header>, mem': map<nat, Header>, a: seq<Block>, mid: seq<Block>, mid': seq<Block>, b: seq<Block>)
    requires Linked(mem, a + mid + b) && mid != [] && mid' != [] && mid[0].addr == mid'[0].addr
    requires LinkedTo(mem', mid', First(b, NULL))
    requires forall x :: x in a || x in b ==> x.addr in mem' && x.addr in mem && mem'[x.addr] == mem[x.addr]
    ensures Linked(mem', a + mid' + b)
  {
    LinkedJoin(mem, a + mid, b, NULL);
    LinkedJoin(mem, a, mid, First(b, NULL));
    LinkedJoin(mem', a, mid', First(b, NULL));
    LinkedJoin(mem', a + mid', b, NULL);
    LinkedFrame(mem, mem', a, mid[0].addr);
    LinkedFrame(mem, mem', b, NULL);
  }

  lemma LinkedFrame(mem: map<nat, Header>, mem': map<nat, Header>, s: seq<Block>, next: nat)
    requires LinkedTo(mem, s, next)
    requires forall x :: x in s ==> x.addr in mem' && x.addr in mem && mem'[x.addr] == mem[x.addr]
    ensures LinkedTo(mem', s, next)
  {
  }

  /** Headers of other blocks lie outside the block at `k`. */
  lemma OthersOutside(s: seq<Block>, hi: nat, k: nat)
    requires Tiled(s, HEAP_START, hi) && k < |s|
    ensures forall x :: x in s[..k] || x in s[k + 1..] ==> x in s && x.addr != s[k].addr && (x.addr < s[k].addr || s[k].End() <= x.addr)
  {
    forall x | x in s[..k] || x in s[k + 1..]
      ensures x in s && x.addr != s[k].addr && (x.addr < s[k].addr || s[k].End() <= x.addr)
    {
      var i :| 0 <= i < |s| && i != k && s[i] == x;
      if i < k { Ordered(s, HEAP_START, hi, i, k); } else { Ordered(s, HEAP_START, hi, k, i); }
    }
  }

  lemma PartsAt(s: seq<Block>, k: nat)
    requires k < |s|
    ensures s == s[..k] + [s[k]] + s[k + 1..]
  {
  }

  lemma HeaderOf(mem: map<nat, Header>, s: seq<Block>, k: nat)
    requires Linked(mem, s) && k < |s|
    ensures s[k].addr in mem && mem[s[k].addr] == Header(s[k].size, s[k].free, First(s[k + 1..], NULL))
    ensures forall x :: x in s ==> x.addr in mem
  {
  }

  /** The headers of the pieces of a block that is cut. */
  function CutHeaders(mem: map<nat, Header>, b: Block, size: nat): map<nat, Header>
    requires b.addr in mem && b.size >= size
  {
    if b.size >= size + HEADER + 16 then
      mem[b.addr + HEADER + size := Header(b.size - size - HEADER, true, mem[b.addr].next)][b.addr := Header(size, false, b.addr + HEADER + size)]
    else mem[b.addr := mem[b.addr].(isFree := false)]
  }

  /** Cutting the free block at `k` edits its header and may add one inside it; no other is touched. */
  lemma RelinkTaken(mem: map<nat, Header>, s: seq<Block>, hi: nat, k: nat, size: nat)
    requires Tiled(s, HEAP_START, hi) && Linked(mem, s) && k < |s| && Fits(s[k], size)
    ensures s[k].addr in mem && Linked(CutHeaders(mem, s[k], size), Taken(s, k, size))
  {
    HeaderOf(mem, s, k);
    OthersOutside(s, hi, k);
    PartsAt(s, k);
    hide Linked, Tiled;
    Relink(mem, CutHeaders(mem, s[k], size), s[..k], [s[k]], Pieces(s[k], size), s[k + 1..]);
  }

  lemma MergeParts(s: seq<Block>, k: nat)
    requires k + 1 < |s|
    ensures s == s[..k] + s[k..k + 2] + s[k + 2..] && s[k..k + 2] == [s[k], s[k + 1]]
    ensures forall x :: x in s[..k] || x in s[k + 2..] ==> x in s[..k] || x in s[k + 1..]
  {
    assert s[k + 1..] == [s[k + 1]] + s[k + 2..];
  }

  function MergedHeaders(mem: map<nat, Header>, b: Block, c: Block): map<nat, Header>
    requires c.addr in mem
  {
    mem[b.addr := Header(b.size + HEADER + c.size, b.free, mem[c.addr].next)]
  }

  /** Merging two neighbours edits the header of the first; no other is touched. */
  lemma RelinkMerged(mem: map<nat, Header>, s: seq<Block>, hi: nat, k: nat)
    requires Tiled(s, HEAP_START, hi) && Linked(mem, s) && k + 1 < |s|
    ensures s[k].addr in mem && s[k + 1].addr in mem
    ensures mem[s[k].addr] == Header(s[k].size, s[k].free, s[k + 1].addr)
    ensures mem[s[k + 1].addr].size == s[k + 1].size && mem[s[k + 1].addr].isFree == s[k + 1].free
    ensures Linked(MergedHeaders(mem, s[k], s[k + 1]), Merged(s, k))
  {
    hide Linked, LinkedTo, Tiled, Merged;
    HeaderOf(mem, s, k);
    HeaderOf(mem, s, k + 1);
    OthersOutside(s, hi, k);
    MergeParts(s, k);
    var b := Block(s[k].addr, s[k].size + HEADER + s[k + 1].size, s[k].free);
    var mem' := MergedHeaders(mem, s[k], s[k + 1]);
    assert s[k + 1 + 1..] == s[k + 2..];
    LinkedOne(mem', b, First(s[k + 2..], NULL));
    Relink(mem, mem', s[..k], s[k..k + 2], [b], s[k + 2..]);
    MergedIs(s, k, b);
  }

  lemma LinkedOne(mem: map<nat, Header>, b: Block, next: nat)
    requires b.addr in mem && mem[b.addr] == Header(b.size, b.free, next)
    ensures LinkedTo(mem, [b], next)
  {
  }

  lemma MergedIs(s: seq<Block>, k: nat, b: Block)
    requires k + 1 < |s| && b == Block(s[k].addr, s[k].size + HEADER + s[k + 1].size, s[k].free)
    ensures Merged(s, k) == s[..k] + [b] + s[k + 2..]
  {
  }

  lemma RelinkFreed(mem: map<nat, Header>, s: seq<Block>, hi: nat, k: nat)
    requires Tiled(s, HEAP_START, hi) && Linked(mem, s) && k < |s|
    ensures s[k].addr in mem && Linked(mem[s[k].addr := mem[s[k].addr].(isFree := true)], s[k := s[k].(free := true)])
  {
    HeaderOf(mem, s, k);
    OthersOutside(s, hi, k);
    PartsAt(s, k);
    hide Linked, Tiled;
    var b := s[k].(free := true);
    assert s[k := b] == s[..k] + [b] + s[k + 1..];
    Relink(mem, mem[s[k].addr := mem[s[k].addr].(isFree := true)], s[..k], [s[k]], [b], s[k + 1..]);
  }

  lemma RelinkAppended(mem: map<nat, Header>, s: seq<Block>, hi: nat, size: nat)
    requires Tiled(s, HEAP_START, hi) && Linked(mem, s)
    ensures var m := mem[hi := Header(size, true, NULL)];
      Linked(if s == [] then m else m[s[|s| - 1].addr := m[s[|s| - 1].addr].(next := hi)], s + [Block(hi, size, true)])
  {
    forall i | 0 <= i < |s|
      ensures s[i].addr != hi && (i != |s| - 1 ==> s[i].addr != s[|s| - 1].addr)
    {
      Bounds(s, HEAP_START, hi, i);
      if s[i].addr == s[|s| - 1].addr { AddrUnique(s, HEAP_START, hi, i, |s| - 1); }
    }
  }

  /** How many frames may go for `bytes` of heap: each page and, at most, three tables for it. */
  function FrameCost(bytes: nat): nat { 4 * (AlignUp(bytes, PAGE_SIZE) / PAGE_SIZE) }

  class Heap {
    const vmm: Vmm
    var mem: map<nat, Header>
    var head: nat
    var heapEnd: nat
    ghost var list: seq<Block>

    /** The pages of the heap so far are mapped in the current address space. */
    ghost predicate Backed()
      reads this`heapEnd, vmm, vmm.pmm, vmm.pmm.bitmap
    {
      && vmm.Valid() && heapEnd >= HEAP_START && (heapEnd - HEAP_START) % PAGE_SIZE == 0
      && HeapMapped(vmm.View(), vmm.pmm.free, vmm.pml4, (heapEnd - HEAP_START) / PAGE_SIZE)
    }

    ghost predicate Valid()
      reads this, vmm, vmm.pmm, vmm.pmm.bitmap
    {
      Backed() && Linked(mem, list) && head == AddrAt(list, 0) && Canonical(list, HEAP_START, heapEnd)
    }

    /** The headers in memory spell out the list, which fills the heap without gaps. */
    ghost predicate Spelled()
      reads this
    {
      Linked(mem, list) && head == AddrAt(list, 0) && Tiled(list, HEAP_START, heapEnd)
    }

    lemma ListCanonical()
      requires Valid()
      ensures Canonical(list, HEAP_START, heapEnd)
    {
    }

    constructor (vmm: Vmm)
      requires vmm.Valid() && HeapMapped(vmm.View(), vmm.pmm.free, vmm.pml4, 0)
      ensures Valid() && list == [] && heapEnd == HEAP_START && this.vmm == vmm
    {
      this.vmm := vmm;
      mem, head, heapEnd, list := map[], NULL, HEAP_START, [];
    }

    /** The loop body of `heap_expand`: one more page, or a halt for want of a frame. */
    method AddPage() returns (ok: bool)
      requires Backed() && heapEnd + PAGE_SIZE <= TWO64
      modifies this`heapEnd, vmm`ram, vmm`tags, vmm.pmm`free, vmm.pmm.bitmap
      ensures if ok then Backed() && heapEnd == old(heapEnd) + PAGE_SIZE else vmm.pmm.free == {}
      ensures ok ==> |old(vmm.pmm.free)| - 4 <= |vmm.pmm.free| < |old(vmm.pmm.free)|
      ensures |old(vmm.pmm.free)| >= 4 ==> ok
    {
      hide Frames.Pmm.Valid, HeapMapped, MapStep, Prepares, Typed, Walk, PageEntry, MissingAt, VpnOf, PathClear, HeapVpn, Upper, Index;
      ghost var n, s, free := (heapEnd - HEAP_START) / PAGE_SIZE, vmm.View(), vmm.pmm.free;
      assert heapEnd == HEAP_START + n * PAGE_SIZE;
      var phys := vmm.pmm.Alloc();
      if phys == 0 { return false; }
      ghost var f := phys / 4096;
      assert phys == f * 4096;
      HeapVpnOf(n);
      NextClear(s, free, vmm.pml4, n);
      ok := vmm.MapPage(heapEnd, phys, HEAP_PAGE_FLAGS);
      if !ok { return; }
      HeapGrows(s, vmm.View(), free, vmm.pmm.free, vmm.pml4, n, f);
      heapEnd := heapEnd + PAGE_SIZE;
      assert (heapEnd - HEAP_START) / PAGE_SIZE == n + 1;
    }

    /** Adds `bytes`, rounded up to pages, behind the heap and writes a free block there; where `ok` is false
        the kernel halts, with no frame left. */
    method Expand(bytes: nat) returns (ok: bool, block: nat)
      requires Backed() && bytes > HEADER && heapEnd + AlignUp(bytes, PAGE_SIZE) <= TWO64
      modifies this`mem, this`heapEnd, vmm`ram, vmm`tags, vmm.pmm`free, vmm.pmm.bitmap
      ensures if ok then Backed() else vmm.pmm.free == {}
      ensures |old(vmm.pmm.free)| >= FrameCost(bytes) ==> ok
      ensures ok ==> |vmm.pmm.free| >= |old(vmm.pmm.free)| - FrameCost(bytes)
      ensures ok ==> |vmm.pmm.free| <= |old(vmm.pmm.free)| - AlignUp(bytes, PAGE_SIZE) / PAGE_SIZE
      ensures ok ==> block == old(heapEnd) && heapEnd == old(heapEnd) + AlignUp(bytes, PAGE_SIZE)
      ensures ok ==> mem == old(mem)[block := Header(AlignUp(bytes, PAGE_SIZE) - HEADER, true, NULL)]
    {
      hide Backed;
      var needed := AlignUp(bytes, PAGE_SIZE);
      var pages := needed / PAGE_SIZE;
      block := heapEnd;
      for i := 0 to pages
        invariant Backed() && heapEnd == old(heapEnd) + i * PAGE_SIZE && mem == old(mem)
        invariant |old(vmm.pmm.free)| - 4 * i <= |vmm.pmm.free| <= |old(vmm.pmm.free)| - i
      {
        ok := AddPage();
        if !ok { return false, NULL; }
      }
      mem := mem[block := Header(needed - HEADER, true, NULL)];
      ok := true;
    }

    /** `init_heap` with the initial size of the source. */
    method Init() returns (ok: bool)
      requires Valid() && list == [] && heapEnd == HEAP_START
      modifies this, vmm`ram, vmm`tags, vmm.pmm`free, vmm.pmm.bitmap
      ensures if ok then Valid() else vmm.pmm.free == {}
      ensures |old(vmm.pmm.free)| >= FrameCost(0x100_0000) ==> ok
      ensures ok ==> heapEnd == HEAP_START + 0x100_0000 && list == [Block(HEAP_START, 0x100_0000 - HEADER, true)]
    {
      hide Backed;
      ok, head := Expand(0x100_0000);
      if ok {
        list := [Block(HEAP_START, 0x100_0000 - HEADER, true)];
      }
    }

    /** Cuts the free block `current`, which is block `k` of the list. */
    method Take(current: nat, size: nat, ghost k: nat)
      requires Spelled() && k < |list| && list[k].addr == current && Fits(list[k], size)
      requires NoAdjacentFreeBut(list, k)
      requires k + 1 < |list| ==> !list[k + 1].free
      modifies this`mem, this`list
      ensures Spelled() && NoAdjacentFree(list) && Live(list) == Live(old(list)) + {Block(current, Cut(old(list[k].size), size), false)}
    {
      hide Tiled, Linked, NoAdjacentFree, NoAdjacentFreeBut, Taken, Live;
      RelinkTaken(mem, list, heapEnd, k, size);
      TakenCanonical(list, HEAP_START, heapEnd, k, size);
      HeadKept(k, size);
      HeaderOf(mem, list, k);
      ghost var m := CutHeaders(mem, list[k], size);
      var b := mem[current];
      if b.size >= size + HEADER + 16 {
        var rest := current + HEADER + size;
        mem := mem[rest := Header(b.size - size - HEADER, true, b.next)];
        mem := mem[current := mem[current].(size := size, next := rest)];
      }
      mem := mem[current := mem[current].(isFree := false)];
      assert mem == m;
      list := Taken(list, k, size);
    }

    lemma HeadKept(k: nat, size: nat)
      requires k < |list| && list[k].size >= size
      ensures AddrAt(Taken(list, k, size), 0) == AddrAt(list, 0)
    {
    }

    /** No size or address computed for the request wraps around at 64 bits. */
    ghost predicate FitsAddressSpace(request: nat)
      reads this
    {
      NoFit(list, AlignUp(request, 16)) ==> heapEnd + Growth(AlignUp(request, 16)) < TWO64
    }

    /** `kmalloc`: NULL for an empty request; where `ok` is false the kernel halts, with no frame left. */
    method Kmalloc(request: nat) returns (ok: bool, p: nat)
      requires Valid() && FitsAddressSpace(request)
      modifies this, vmm`ram, vmm`tags, vmm.pmm`free, vmm.pmm.bitmap
      ensures request == 0 ==> ok && p == NULL && list == old(list) && heapEnd == old(heapEnd)
      ensures if ok then Valid() else vmm.pmm.free == {}
      ensures ok && request > 0 ==> AllocStep(old(list), old(heapEnd), list, heapEnd, request, p)
      ensures ok ==> |vmm.pmm.free| >= |old(vmm.pmm.free)| - FrameCost(Growth(AlignUp(request, 16)))
      ensures ok ==> |vmm.pmm.free| <= |old(vmm.pmm.free)| - (heapEnd - old(heapEnd)) / PAGE_SIZE
      ensures ok && heapEnd == old(heapEnd) ==> vmm.View() == old(vmm.View()) && vmm.pmm.free == old(vmm.pmm.free)
      ensures (request == 0 || !NoFit(old(list), AlignUp(request, 16))) ==> ok
      ensures |old(vmm.pmm.free)| >= FrameCost(Growth(AlignUp(request, 16))) ==> ok
    {
      hide Backed;
      if request == 0 { return true, NULL; }
      var size := AlignUp(request, 16);
      var current := head;
      var last := NULL;
      ghost var k := 0;
      while current != NULL
        invariant Valid() && list == old(list) && heapEnd == old(heapEnd)
        invariant vmm.View() == old(vmm.View()) && vmm.pmm.free == old(vmm.pmm.free)
        invariant k <= |list| && current == AddrAt(list, k) && last == (if k == 0 then NULL else list[k - 1].addr)
        invariant forall i :: 0 <= i < k ==> !Fits(list[i], size)
        decreases |list| - k
      {
        assert k < |list|;
        var b := mem[current];
        if b.isFree && b.size >= size {
          Take(current, size, k);
          assert FirstFit(old(list), size, k);
          return true, current + HEADER;
        }
        last := current;
        current := b.next;
        NextBlock(k);
        k := k + 1;
      }
      ListAddr(k);
      p := NULL;
      ok, p := Grow(size, last);
    }

    /** The `next` field of a block leads to its neighbour. */
    lemma NextBlock(k: nat)
      requires Tiled(list, HEAP_START, heapEnd) && Linked(mem, list) && k < |list|
      ensures mem[list[k].addr].next == AddrAt(list, k + 1)
      ensures k + 1 < |list| <==> AddrAt(list, k + 1) != NULL
    {
      ListAddr(k + 1);
    }

    lemma ListAddr(k: nat)
      requires Tiled(list, HEAP_START, heapEnd)
      ensures k < |list| <==> AddrAt(list, k) != NULL
    {
      if k < |list| { Bounds(list, HEAP_START, heapEnd, k); }
    }

    /** The tail of `kmalloc`: new pages behind `last`, cut to size. */
    method Grow(size: nat, last: nat) returns (ok: bool, p: nat)
      requires Valid() && size > 0 && NoFit(list, size) && heapEnd + Growth(size) < TWO64
      requires last == if list == [] then NULL else list[|list| - 1].addr
      modifies this, vmm`ram, vmm`tags, vmm.pmm`free, vmm.pmm.bitmap
      ensures if ok then Valid() else vmm.pmm.free == {}
      ensures |old(vmm.pmm.free)| >= FrameCost(Growth(size)) ==> ok
      ensures ok ==> |vmm.pmm.free| >= |old(vmm.pmm.free)| - FrameCost(Growth(size))
      ensures ok ==> |vmm.pmm.free| <= |old(vmm.pmm.free)| - Growth(size) / PAGE_SIZE
      ensures ok ==> heapEnd == old(heapEnd) + Growth(size) && p == old(heapEnd) + HEADER
      ensures ok ==> Live(list) == Live(old(list)) + {Block(old(heapEnd), Cut(Growth(size) - HEADER, size), false)}
    {
      hide Linked, Live, NoAdjacentFree, NoAdjacentFreeBut, LinkedTo, Backed;
      ghost var was, hi := list, heapEnd;
      if list != [] {
        ListAddr(|list| - 1);
        HeaderOf(mem, list, |list| - 1);
      }
      var block;
      ok, block := Expand(size + HEADER);
      if !ok { return false, NULL; }
      RelinkAppended(old(mem), list, hi, Growth(size) - HEADER);
      AppendTiled(list, HEAP_START, hi, Growth(size) - HEADER);
      AppendedBut(list, Block(hi, Growth(size) - HEADER, true));
      if last != NULL {
        mem := mem[last := mem[last].(next := block)];
      } else {
        head := block;
      }
      list := list + [Block(block, Growth(size) - HEADER, true)];
      Take(block, size, |was|);
      p := block + HEADER;
    }

    /** `kfree` of NULL or of a live payload. */
    method Kfree(p: nat)
      requires Valid() && (p == NULL || exists b :: b in Live(list) && b.Payload() == p)
      modifies this`mem, this`list
      ensures Valid()
      ensures p == NULL ==> list == old(list)
      ensures p != NULL ==> FreeStep(old(list), heapEnd, list, p)
    {
      hide Backed, Linked, Live, Tiled;
      if p == NULL { return; }
      var block := p - HEADER;
      ghost var j := PayloadAt(p);
      HeaderOf(mem, list, j);
      RelinkFreed(mem, list, heapEnd, j);
      FreedTiled(list, HEAP_START, heapEnd, j);
      mem := mem[block := mem[block].(isFree := true)];
      list := list[j := list[j].(free := true)];
      Coalesce();
    }

    lemma PayloadAt(p: nat) returns (j: nat)
      requires exists b :: b in Live(list) && b.Payload() == p
      ensures j < |list| && !list[j].free && list[j].Payload() == p && list[j] in Live(list)
    {
      var b :| b in Live(list) && b.Payload() == p;
      j :| 0 <= j < |list| && list[j] == b;
    }

    /** Every byte of every block, header and payload, lies in a page that is mapped to a frame of its own. */
    lemma BlockMapped(i: nat, x: nat) returns (k: nat)
      requires Valid() && i < |list| && list[i].addr <= x < list[i].End()
      ensures k < HEAP_PAGES && VpnOf(x) == HeapVpn(k) && PageOwned(vmm.View(), vmm.pmm.free, vmm.pml4, k)
    {
      hide PageOwned, Frames.Pmm.Valid;
      Bounds(list, HEAP_START, heapEnd, i);
      k := (x - HEAP_START) / PAGE_SIZE;
      HeapVpnOf(k);
      assert x / PAGE_SIZE == (HEAP_START + k * PAGE_SIZE) / PAGE_SIZE;
    }

    /** The body of the inner coalescing loop: the free block `current` swallows its free neighbour. */
    method MergeNext(current: nat, ghost k: nat)
      requires Spelled() && k + 1 < |list| && current == list[k].addr && list[k].free && list[k + 1].free
      modifies this`mem, this`list
      ensures Spelled() && Live(list) == Live(old(list)) && |list| == |old(list)| - 1
      ensures k < |list| && list[k].addr == current && list[k].free && list[..k] == old(list)[..k]
    {
      hide Tiled, Linked, Live;
      RelinkMerged(mem, list, heapEnd, k);
      MergedTiled(list, HEAP_START, heapEnd, k);
      ghost var m := MergedHeaders(mem, list[k], list[k + 1]);
      var next := mem[mem[current].next];
      mem := mem[current := mem[current].(size := mem[current].size + HEADER + next.size)];
      mem := mem[current := mem[current].(next := next.next)];
      assert mem == m;
      list := Merged(list, k);
    }

    /** The coalescing loops of `kfree`. */
    method Coalesce()
      requires Spelled()
      modifies this`mem, this`list
      ensures Spelled() && NoAdjacentFree(list) && Live(list) == Live(old(list))
    {
      var current := head;
      ghost var k := 0;
      while current != NULL
        invariant Spelled()
        invariant Live(list) == Live(old(list))
        invariant k <= |list| && current == AddrAt(list, k)
        invariant forall i, j :: 0 <= i < k && j == i + 1 < |list| ==> !(list[i].free && list[j].free)
        decreases |list| - k
      {
        assert k < |list|;
        NextBlock(k);
        while mem[current].isFree && mem[current].next != NULL && mem[mem[current].next].isFree
          invariant Spelled()
          invariant Live(list) == Live(old(list))
          invariant k < |list| && current == AddrAt(list, k) && current in mem
          invariant mem[current].next != NULL ==> mem[current].next in mem
          invariant forall i, j :: 0 <= i < k && j == i + 1 < |list| ==> !(list[i].free && list[j].free)
          decreases |list|
        {
          MergeNext(current, k);
          NextBlock(k);
        }
        NextBlock(k);
        current := mem[current].next;
        k := k + 1;
      }
      ListAddr(k);
    }
  }
}
