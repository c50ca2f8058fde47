/** Thread stacks as blocks of the heap: what the scheduler asks of a new stack is what the heap gives it. */
module ThreadStacks {
  import opened SchedulerModel
  import opened SchedulerRuns
  import HL = HeapLists

  /** `sizeof(thread_t)` */
  const THREAD_SIZE := 40

  ghost predicate HasBlock(s: Sys, list: seq<HL.Block>, i: nat)
    requires i < |s.q|
  {
    exists b :: b in HL.Live(list) && b.Payload() == s.q[i].stack && b.size >= STACK_SIZE
  }

  /** The stack of every thread but the boot thread is a live block, and that one's lies below the heap. */
  ghost predicate Owned(s: Sys, list: seq<HL.Block>) {
    s.bootHi <= HL.HEAP_START && forall i :: 0 < i < |s.q| ==> HasBlock(s, list, i)
  }

  /** Two live blocks at different places do not overlap. */
  lemma LiveDisjoint(list: seq<HL.Block>, hi: nat, b: HL.Block, c: HL.Block)
    requires HL.Canonical(list, HL.HEAP_START, hi) && b in HL.Live(list) && c in HL.Live(list) && b != c
    ensures b.End() <= c.Payload() || c.End() <= b.Payload()
  {
    var i :| 0 <= i < |list| && list[i] == b;
    var j :| 0 <= j < |list| && list[j] == c;
    HL.HeadersOutsidePayloads(list, HL.HEAP_START, hi, i, j);
  }

  lemma LiveInHeap(list: seq<HL.Block>, hi: nat, b: HL.Block)
    requires HL.Canonical(list, HL.HEAP_START, hi) && b in HL.Live(list)
    ensures HL.HEAP_START <= b.addr
  {
    var i :| 0 <= i < |list| && list[i] == b;
    HL.Bounds(list, HL.HEAP_START, hi, i);
  }

  /** A request that is not empty is never answered NULL. */
  lemma NeverNull(list: seq<HL.Block>, hi: nat, list': seq<HL.Block>, hi': nat, request: nat, p: nat)
    requires request > 0 && HL.Canonical(list, HL.HEAP_START, hi) && HL.AllocStep(list, hi, list', hi', request, p)
    ensures p > HL.HEAP_START
  {
    assert HL.Canonical(list', HL.HEAP_START, hi');
    hide HL.AllocStep, HL.Live, HL.Canonical, HL.AlignUp;
    HL.AllocSize(list, hi, list', hi', request, p);
    var b :| HL.Allocated(list, list', b, request, p);
    LiveInHeap(list', hi', b);
  }

  /** Whatever `kmalloc` returns for a stack is fit to be one. */
  lemma NewStackFits(s: Sys, list: seq<HL.Block>, hi: nat, list': seq<HL.Block>, hi': nat, p: nat)
    requires HL.AlignedHeap(list, hi) && Owned(s, list) && HL.AllocStep(list, hi, list', hi', STACK_SIZE, p)
    ensures StackFits(s, p)
  {
    hide HL.AllocStep, HL.Live, HL.Canonical, HL.AlignUp;
    HL.AllocAligned(list, hi, list', hi', STACK_SIZE, p);
    HL.AllocSize(list, hi, list', hi', STACK_SIZE, p);
    var b :| HL.Allocated(list, list', b, STACK_SIZE, p);
    LiveInHeap(list', hi', b);
    forall i | 0 <= i < |s.q|
      ensures p + STACK_SIZE <= s.Lo(i) || s.Hi(i) <= p
    {
      if i > 0 {
        assert HasBlock(s, list, i);
        var c :| c in HL.Live(list) && c.Payload() == s.q[i].stack && c.size >= STACK_SIZE;
        LiveDisjoint(list', hi', b, c);
      }
    }
  }

  /** Allocations keep the stacks. */
  lemma AllocOwned(s: Sys, list: seq<HL.Block>, hi: nat, list': seq<HL.Block>, hi': nat, request: nat, p: nat)
    requires request > 0 && HL.AlignedHeap(list, hi) && Owned(s, list) && HL.AllocStep(list, hi, list', hi', request, p)
    ensures HL.AlignedHeap(list', hi') && Owned(s, list')
  {
    hide HL.AllocStep, HL.Live, HL.Canonical, HL.AlignUp;
    HL.AllocAligned(list, hi, list', hi', request, p);
    HL.AllocSize(list, hi, list', hi', request, p);
    var b :| HL.Allocated(list, list', b, request, p);
    forall i | 0 < i < |s.q|
      ensures HasBlock(s, list', i)
    {
      assert HasBlock(s, list, i);
    }
  }

  /** So do frees of anything that is no stack. */
  lemma FreeOwned(s: Sys, list: seq<HL.Block>, hi: nat, list': seq<HL.Block>, p: nat)
    requires HL.AlignedHeap(list, hi) && Owned(s, list) && HL.FreeStep(list, hi, list', p)
    requires forall i :: 0 < i < |s.q| ==> s.q[i].stack != p
    ensures HL.AlignedHeap(list', hi) && Owned(s, list')
  {
    hide HL.Live, HL.Canonical;
    HL.FreeAligned(list, hi, list', p);
    var b :| b in HL.Live(list) && b.Payload() == p && HL.Live(list') == HL.Live(list) - {b};
    forall i | 0 < i < |s.q|
      ensures HasBlock(s, list', i)
    {
      assert HasBlock(s, list, i);
      var c :| c in HL.Live(list) && c.Payload() == s.q[i].stack && c.size >= STACK_SIZE;
      assert c in HL.Live(list');
    }
  }

  /** The new thread's stack is the block that was allocated for it. */
  lemma MadeOwned(s: Sys, list: seq<HL.Block>, hi: nat, list': seq<HL.Block>, hi': nat, entry: nat, p: nat)
    requires HL.AlignedHeap(list, hi) && Owned(s, list) && HL.AllocStep(list, hi, list', hi', STACK_SIZE, p)
    ensures Owned(Made(s, entry, p), list')
  {
    hide HL.AllocStep, HL.Live, HL.Canonical, HL.AlignUp, NewStack;
    AllocOwned(s, list, hi, list', hi', STACK_SIZE, p);
    HL.AllocSize(list, hi, list', hi', STACK_SIZE, p);
    var b :| HL.Allocated(list, list', b, STACK_SIZE, p);
    var s' := Made(s, entry, p);
    forall i | 0 < i < |s'.q|
      ensures HasBlock(s', list', i)
    {
      if i < |s.q| {
        assert HasBlock(s, list', i) && s'.q[i] == s.q[i];
      }
    }
  }

  /** Steps of the scheduler that create no thread keep the stacks. */
  lemma StepOwned(s: Sys, s': Sys, st: Step, list: seq<HL.Block>)
    requires Inv(s) && Next(s, s', st) && !st.Create? && Owned(s, list)
    ensures Owned(s', list)
  {
    hide HL.Live, PushAll, Restored;
    SameQueue(s, s', st);
    StepStable(s, s', st, 0);
    forall i | 0 < i < |s'.q|
      ensures HasBlock(s', list, i)
    {
      StepStable(s, s', st, i);
      assert HasBlock(s, list, i);
    }
  }

  lemma SameQueue(s: Sys, s': Sys, st: Step)
    requires Next(s, s', st) && !st.Create?
    ensures |s'.q| == |s.q|
  {
  }

  // ----- both together

  /** The threads and the heap their stacks come from. */
  datatype Kernel = Kernel(sys: Sys, heap: HL.Snapshot)

  datatype Event = Schedule(st: Step) | Use(op: HL.Op) | NewThread(entry: nat, tcb: nat, stack: nat)

  ghost predicate Happens(k: Kernel, k': Kernel, ev: Event) {
    match ev
    case Schedule(st) => !st.Create? && Next(k.sys, k'.sys, st) && k'.heap == k.heap
    case Use(op) => k'.sys == k.sys && HL.OpStep(k.heap, k'.heap, op) && (op.Free? ==> forall i :: 0 < i < |k.sys.q| ==> k.sys.q[i].stack != op.p)
    case NewThread(entry, tcb, stack) =>
      && k'.sys == Made(k.sys, entry, stack)
      && exists mid :: HL.OpStep(k.heap, mid, HL.Alloc(40, tcb)) && HL.OpStep(mid, k'.heap, HL.Alloc(16384, stack))
  }

  ghost predicate Sound(k: Kernel) {
    Inv(k.sys) && HL.AlignedHeap(k.heap.list, k.heap.hi) && Owned(k.sys, k.heap.list)
  }

  /** Every event keeps all invariants, and a thread made on what the heap hands out is a step of the scheduler:
      nothing about the place of its stack has to be assumed. */
  lemma EventKeeps(k: Kernel, k': Kernel, ev: Event)
    requires Sound(k) && Happens(k, k', ev)
    ensures Sound(k')
    ensures ev.NewThread? ==> CreateStep(k.sys, k'.sys, ev.entry, ev.stack)
  {
    hide Inv, HL.AlignedHeap, Owned, StackFits, Next, HL.AllocStep, HL.FreeStep, Made;
    match ev
    case Schedule(st) =>
      StepKeepsInv(k.sys, k'.sys, st);
      StepOwned(k.sys, k'.sys, st, k.heap.list);
    case Use(op) =>
      match op {
        case Alloc(request, p) => AllocOwned(k.sys, k.heap.list, k.heap.hi, k'.heap.list, k'.heap.hi, request, p);
        case Free(p) => FreeOwned(k.sys, k.heap.list, k.heap.hi, k'.heap.list, p);
      }
    case NewThread(entry, tcb, stack) =>
      var mid :| HL.OpStep(k.heap, mid, HL.Alloc(THREAD_SIZE, tcb)) && HL.OpStep(mid, k'.heap, HL.Alloc(STACK_SIZE, stack));
      AllocOwned(k.sys, k.heap.list, k.heap.hi, mid.list, mid.hi, THREAD_SIZE, tcb);
      NewStackFits(k.sys, mid.list, mid.hi, k'.heap.list, k'.heap.hi, stack);
      MadeOwned(k.sys, mid.list, mid.hi, k'.heap.list, k'.heap.hi, entry, stack);
      AllocOwned(k.sys, mid.list, mid.hi, k'.heap.list, k'.heap.hi, STACK_SIZE, stack);
      CreateKeepsInv(k.sys, k'.sys, entry, stack);
  }

  ghost predicate History(trace: seq<Kernel>, events: seq<Event>) {
    |trace| == |events| + 1 && forall i, j :: 0 <= i < |events| && j == i + 1 ==> Happens(trace[i], trace[j], events[i])
  }

  /** Over every history of scheduling, heap use and thread creation. */
  lemma {:induction false} HistoryKeeps(trace: seq<Kernel>, events: seq<Event>, n: nat)
    requires History(trace, events) && n <= |events| && Sound(trace[0])
    ensures Sound(trace[n])
    ensures n < |events| && events[n].NewThread? ==> CreateStep(trace[n].sys, trace[n + 1].sys, events[n].entry, events[n].stack)
  {
    hide Sound, Happens, CreateStep;
    if n > 0 {
      HistoryKeeps(trace, events, n - 1);
      EventKeeps(trace[n - 1], trace[n], events[n - 1]);
    }
    if n < |events| {
      assert Happens(trace[n], trace[n + 1], events[n]);
      EventKeeps(trace[n], trace[n + 1], events[n]);
    }
  }
}
