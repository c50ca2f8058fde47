/** The scheduler as the kernel has it: thread records linked into a queue, edited in place, and a
    context switch that pushes and pops on two stacks. */
module Scheduler {
  import opened Bytes
  import opened SchedulerModel
  import opened ThreadStacks
  import HL = HeapLists
  import KernelHeap = Heap

  class Thread {
    var rsp: nat
    var id: nat
    var state: State
    var stackBottom: nat
    var next: Thread?

    constructor (id: nat, state: State, rsp: nat, stackBottom: nat)
      ensures this.id == id && this.state == state && this.rsp == rsp && this.stackBottom == stackBottom && next == null
    {
      this.id, this.state, this.rsp, this.stackBottom, this.next := id, state, rsp, stackBottom, null;
    }

    ghost function Value(): Tcb
      reads this
    {
      Tcb(id, state, rsp, stackBottom)
    }
  }

  ghost function Values(q: seq<Thread>): (v: seq<Tcb>)
    reads q
    ensures |v| == |q| && forall i :: 0 <= i < |q| ==> v[i] == q[i].Value()
  {
    if q == [] then [] else Values(q[..|q| - 1]) + [q[|q| - 1].Value()]
  }

  class Scheduler {
    var running: Thread
    var head: Thread
    var nextId: nat
    var regs: Regs
    var mem: Mem
    const exit: nat
    ghost const bootLo: nat
    ghost const bootHi: nat
    ghost var queue: seq<Thread>
    ghost var cur: nat

    /** The list from `head` is the queue. */
    ghost predicate Chained()
      reads this`queue, this`head, queue`next
    {
      && queue != [] && head == queue[0]
      && (forall i, j :: 0 <= i < j < |queue| ==> queue[i] != queue[j])
      && (forall i, j :: 0 <= i < j < |queue| && j == i + 1 ==> queue[i].next == queue[j])
      && queue[|queue| - 1].next == null
    }

    /** And one of its threads is the running one. */
    ghost predicate Linked()
      reads this`cur, this`queue, this`running, this`head, queue`next
    {
      Chained() && cur < |queue| && running == queue[cur]
    }

    lemma OnePlace(k: nat, i: nat)
      requires Chained() && k < |queue| && i < |queue|
      ensures queue[i] == queue[k] <==> i == k
    {
    }

    ghost function View(): Sys
      reads this, queue
    {
      Sys(Values(queue), cur, nextId, regs, mem, exit, bootLo, bootHi)
    }

    ghost predicate Valid()
      reads this, queue
    {
      Linked() && Inv(View())
    }

    /** `init_scheduler`: the boot thread alone, on the stack it came with. */
    constructor (regs: Regs, mem: Mem, exit: nat, ghost bootLo: nat, ghost bootHi: nat)
      requires bootLo % 8 == 0 && 0 < bootLo && bootLo + 56 <= regs.rsp <= bootHi && regs.rsp % 8 == 0
      ensures Valid() && fresh(queue) && |queue| == 1 && this.regs == regs && this.mem == mem && this.exit == exit && nextId == 1
      ensures this.bootLo == bootLo && this.bootHi == bootHi
    {
      hide Inv;
      var boot := new Thread(0, Running, 0, 0);
      running, head, nextId := boot, boot, 1;
      this.regs, this.mem, this.exit := regs, mem, exit;
      this.bootLo, this.bootHi := bootLo, bootHi;
      queue, cur := [boot], 0;
      new;
      BootInv(View());
    }

    lemma BootInv(s: Sys)
      requires |s.q| == 1 && s.q[0] == Tcb(0, Running, 0, 0) && s.cur == 0 && s.nextId == 1
      requires s.bootLo % 8 == 0 && 0 < s.bootLo && s.bootLo + 56 <= s.regs.rsp <= s.bootHi && s.regs.rsp % 8 == 0
      ensures Inv(s)
    {
    }

    method Push(v: nat)
      requires regs.rsp >= 8
      modifies this`regs, this`mem
      ensures regs == old(regs).(rsp := old(regs).rsp - 8) && mem == old(mem)[regs.rsp := v]
    {
      regs := regs.(rsp := regs.rsp - 8);
      mem := mem[regs.rsp := v];
    }

    method Pop() returns (v: nat)
      modifies this`regs
      ensures regs == old(regs).(rsp := old(regs).rsp + 8) && v == Load(mem, old(regs).rsp)
    {
      v := Load(mem, regs.rsp);
      regs := regs.(rsp := regs.rsp + 8);
    }

    /** The return address and the six pushes. */
    method PushFrame()
      requires regs.rsp >= 56
      modifies this`regs, this`mem
      ensures mem == PushAll(old(mem), old(regs)) && regs == old(regs).(rsp := old(regs).rsp - 56)
    {
      Push(regs.rip);
      Push(regs.rbp);
      Push(regs.rbx);
      Push(regs.r12);
      Push(regs.r13);
      Push(regs.r14);
      Push(regs.r15);
    }

    /** The six pops and the return. */
    method PopFrame()
      modifies this`regs
      ensures regs == Restored(mem, old(regs).rsp)
    {
      var r15 := Pop();
      var r14 := Pop();
      var r13 := Pop();
      var r12 := Pop();
      var rbx := Pop();
      var rbp := Pop();
      var rip := Pop();
      regs := Regs(regs.rsp, rbp, rbx, r12, r13, r14, r15, rip);
    }

    /** The call of `context_switch` and its body. */
    method ContextSwitch(last: Thread, newRsp: nat)
      requires regs.rsp >= 56
      modifies this`regs, this`mem, last`rsp
      ensures mem == PushAll(old(mem), old(regs)) && regs == Restored(mem, newRsp)
      ensures last.rsp == old(regs).rsp - 56
    {
      PushFrame();
      last.rsp := regs.rsp;
      regs := regs.(rsp := newRsp);
      PopFrame();
    }

    /** The search loop of `schedule`: it ends because some thread is not dead, and every round brings it one
        thread closer, around the list, to the nearest of those. */
    method FindNext() returns (n: Thread, ghost k: nat)
      requires Linked() && SomeAlive(View().q)
      ensures k < |queue| && n == queue[k] && IsNext(View().q, cur, k)
    {
      NextExists(View().q, cur);
      ghost var goal: nat :| IsNext(View().q, cur, goal);
      ghost var around := false;
      var t: Thread? := running.next;
      k := cur + 1;
      while true
        invariant 0 <= k <= |queue| && (t == if k < |queue| then queue[k] else null)
        invariant if around then k <= goal <= cur else cur < k && (goal > cur ==> k <= goal)
        decreases if goal > cur || around then goal - k else |queue| - k + goal + 1
      {
        if t == null {
          t := head;
          k := 0;
          around := true;
        }
        if t.state == Ready || t.state == Running {
          return t, k;
        }
        if t.state == Dead {
          t := t.next;
          k := k + 1;
        }
      }
    }

    /** `schedule` */
    method Schedule()
      requires Linked() && SomeAlive(View().q) && regs.rsp >= 56
      modifies this, queue
      ensures Linked() && TickStep(old(View()), View()) && queue == old(queue) && nextId == old(nextId)
    {
      hide PushAll, Restored, Switched, IsNext;
      var n;
      ghost var k;
      n, k := FindNext();
      if n == running {
        return;
      }
      SwitchTo(n, k);
    }

    /** The end of `schedule`, once another thread has been found. */
    method SwitchTo(n: Thread, ghost k: nat)
      requires Linked() && k < |queue| && n == queue[k] && k != cur && regs.rsp >= 56
      modifies this`running, this`cur, this`regs, this`mem, queue`state, queue`rsp
      ensures Linked() && View() == Switched(old(View()), k)
    {
      hide PushAll, Restored, Values, Switched, Chained;
      ghost var s := View();
      var last := running;
      if last.state == Running {
        last.state := Ready;
      }
      n.state := Running;
      running := n;
      cur := k;
      ContextSwitch(last, n.rsp);
      forall i | 0 <= i < |queue|
        ensures View().q[i] == AfterSwitch(s, k, i)
      {
        OnePlace(s.cur, i);
        OnePlace(k, i);
      }
      SwitchedIs(s, k, View());
    }

    /** Thread `i` after a switch to `k`. */
    ghost function AfterSwitch(s: Sys, k: nat, i: nat): Tcb
      requires s.cur < |s.q| && i < |s.q| && s.regs.rsp >= 56
    {
      var t := s.q[i];
      if i == k then t.(state := Running)
      else if i == s.cur then t.(state := if t.state.Running? then Ready else t.state, rsp := s.regs.rsp - 56)
      else t
    }

    lemma SwitchedIs(s: Sys, k: nat, s': Sys)
      requires s.cur < |s.q| == |s'.q| && k < |s.q| && k != s.cur && s.regs.rsp >= 56
      requires s' == s.(q := s'.q, cur := k, mem := PushAll(s.mem, s.regs), regs := Restored(s'.mem, s.q[k].rsp))
      requires forall i :: 0 <= i < |s.q| ==> s'.q[i] == AfterSwitch(s, k, i)
      ensures s' == Switched(s, k)
    {
      hide PushAll, Restored;
      assert s'.q == Switched(s, k).q;
    }

    /** `kthread_exit`, up to the switch it never returns from; another thread must be left. */
    method Exit()
      requires Valid() && SomeAlive(Died(View()).q)
      modifies this, queue
      ensures Valid() && Next(old(View()), View(), SchedulerModel.Exit) && queue == old(queue)
    {
      hide Inv, SomeAlive, TickStep, Values;
      ghost var s := View();
      SchedulingEnds(s);
      running.state := Dead;
      DiedIs(s, View());
      Schedule();
      ExitKeepsInv(s, View());
    }

    lemma DiedIs(s: Sys, s': Sys)
      requires s.cur < |s.q| == |s'.q| && s' == s.(q := s'.q)
      requires forall i :: 0 <= i < |s.q| ==> s'.q[i] == if i == s.cur then s.q[i].(state := Dead) else s.q[i]
      ensures s' == Died(s)
    {
      assert s'.q == Died(s).q;
    }

    /** The timer interrupt. */
    method Tick()
      requires Valid()
      modifies this, queue
      ensures Valid() && Next(old(View()), View(), SchedulerModel.Tick) && queue == old(queue)
    {
      hide Inv, SomeAlive, TickStep, Values;
      ghost var s := View();
      SchedulingEnds(s);
      Schedule();
      TickKeepsInv(s, View());
    }

    lemma NextLink(k: nat)
      requires Linked() && k < |queue|
      ensures queue[k].next == if k + 1 < |queue| then queue[k + 1] else null
    {
    }

    /** The walk to the end of the queue. */
    method LastThread() returns (curr: Thread)
      requires Linked()
      ensures curr == queue[|queue| - 1]
    {
      curr := head;
      ghost var k := 0;
      while curr.next != null
        invariant k < |queue| && curr == queue[k]
        decreases |queue| - k
      {
        curr := curr.next;
        k := k + 1;
      }
      NextLink(k);
    }

    /** `kthread_create` on the kernel heap; where `ok` is false the kernel halts, with no frame left. The tests
        for NULL never fire: a request that is not empty is answered, or the heap halts. */
    method CreateOnHeap(heap: KernelHeap.Heap, entry: nat) returns (ok: bool, thread: Thread?)
      requires Valid() && heap.Valid() && Sound(Kernel(View(), HL.Snapshot(heap.list, heap.heapEnd)))
      requires heap.heapEnd + HL.Growth(HL.AlignUp(THREAD_SIZE, 16)) + HL.Growth(HL.AlignUp(STACK_SIZE, 16)) < TWO64
      modifies this, queue, heap, heap.vmm`ram, heap.vmm`tags, heap.vmm.pmm`free, heap.vmm.pmm.bitmap
      ensures Valid() && (if ok then heap.Valid() else heap.vmm.pmm.free == {})
      ensures ok ==> thread != null && fresh(thread) && queue == old(queue) + [thread]
      ensures ok ==> exists tcb, stack :: Happens(old(Kernel(View(), HL.Snapshot(heap.list, heap.heapEnd))),
                                                  Kernel(View(), HL.Snapshot(heap.list, heap.heapEnd)), NewThread(entry, tcb, stack))
      ensures ok ==> Sound(Kernel(View(), HL.Snapshot(heap.list, heap.heapEnd)))
      ensures !ok ==> thread == null && View() == old(View()) && queue == old(queue)
    {
      hide Values, Inv, CreateStep, StackFits, Made, Linked, KernelHeap.Heap.Valid, KernelHeap.FrameCost, HL.AllocStep, HL.AlignUp, HL.Growth, HL.AlignedHeap, Owned;
      ghost var k := Kernel(View(), HL.Snapshot(heap.list, heap.heapEnd));
      thread := null;
      var tcb, stack;
      ok, tcb := AllocFor(heap, THREAD_SIZE, View());
      if !ok { return; }
      ghost var mid := HL.Snapshot(heap.list, heap.heapEnd);
      ok, stack := AllocFor(heap, STACK_SIZE, View());
      if !ok { return; }
      ghost var end := HL.Snapshot(heap.list, heap.heapEnd);
      NewStackFits(k.sys, mid.list, mid.hi, end.list, end.hi, stack);
      thread := Create(entry, tcb != KernelHeap.NULL, if stack != KernelHeap.NULL then Some(stack) else None);
      CreatedMade(k.sys, View(), entry, stack);
      assert HL.OpStep(k.heap, mid, HL.Alloc(THREAD_SIZE, tcb)) && HL.OpStep(mid, end, HL.Alloc(STACK_SIZE, stack));
      assert Happens(k, Kernel(View(), end), NewThread(entry, tcb, stack));
      EventKeeps(k, Kernel(View(), end), NewThread(entry, tcb, stack));
    }

    lemma CreatedMade(s: Sys, s': Sys, entry: nat, stack: nat)
      requires CreateStep(s, s', entry, stack)
      ensures s' == Made(s, entry, stack)
    {
    }

    /** One of its two allocations. */
    method AllocFor(heap: KernelHeap.Heap, request: nat, ghost s: Sys) returns (ok: bool, p: nat)
      requires request > 0 && heap.Valid() && HL.AlignedHeap(heap.list, heap.heapEnd) && Owned(s, heap.list)
      requires heap.heapEnd + HL.Growth(HL.AlignUp(request, 16)) < TWO64
      modifies heap, heap.vmm`ram, heap.vmm`tags, heap.vmm.pmm`free, heap.vmm.pmm.bitmap
      ensures if ok then heap.Valid() else heap.vmm.pmm.free == {}
      ensures ok ==> HL.AllocStep(old(heap.list), old(heap.heapEnd), heap.list, heap.heapEnd, request, p) && p != KernelHeap.NULL
      ensures ok ==> HL.AlignedHeap(heap.list, heap.heapEnd) && Owned(s, heap.list)
      ensures ok ==> heap.heapEnd <= old(heap.heapEnd) + HL.Growth(HL.AlignUp(request, 16))
    {
      hide KernelHeap.Heap.Valid, KernelHeap.FrameCost, HL.AllocStep, HL.AlignUp, HL.Growth, HL.AlignedHeap, HL.Canonical, HL.Live, Owned;
      ghost var list, hi := heap.list, heap.heapEnd;
      heap.ListCanonical();
      ok, p := heap.Kmalloc(request);
      if ok {
        HL.AllocSize(list, hi, heap.list, heap.heapEnd, request, p);
        NeverNull(list, hi, heap.list, heap.heapEnd, request, p);
        AllocOwned(s, list, hi, heap.list, heap.heapEnd, request, p);
      }
    }

    /** `kthread_create`, with what the heap handed out for the thread object and for its stack. */
    method Create(entry: nat, tcb: bool, stack: Option<nat>) returns (thread: Thread?)
      requires Valid() && (stack.Some? ==> StackFits(View(), stack.value))
      modifies this, queue
      ensures Valid() && (thread == null <==> !tcb || stack.None?)
      ensures thread == null ==> View() == old(View()) && queue == old(queue)
      ensures thread != null ==> Next(old(View()), View(), SchedulerModel.Create(entry, stack.value))
      ensures thread != null ==> fresh(thread) && queue == old(queue) + [thread]
    {
      hide Values, NewStack, Inv, CreateStep, StackFits;
      if !tcb { return null; }
      if stack.None? { return null; }
      thread := AddThread(entry, stack.value);
    }

    /** The part of `kthread_create` behind the allocations. */
    method AddThread(entry: nat, stack: nat) returns (thread: Thread)
      requires Valid() && StackFits(View(), stack)
      modifies this, queue
      ensures Valid() && CreateStep(old(View()), View(), entry, stack)
      ensures fresh(thread) && queue == old(queue) + [thread]
    {
      hide Values, NewStack, Inv, CreateStep, StackFits, Linked;
      ghost var s := View();
      var top := FillStack(entry, stack);
      thread := new Thread(nextId, Ready, top, stack);
      nextId := nextId + 1;
      Append(thread);
      CreatedIs(s, View(), entry, stack);
      CreateKeepsInv(s, View(), entry, stack);
    }

    lemma CreatedIs(s: Sys, s': Sys, entry: nat, stack: nat)
      requires StackFits(s, stack)
      requires s'.q == s.q + [Tcb(s.nextId, Ready, stack + STACK_SIZE - 64, stack)] && s'.nextId == s.nextId + 1
      requires s'.mem == NewStack(s.mem, stack, entry, s.exit)
      requires s' == s.(q := s'.q, nextId := s'.nextId, mem := s'.mem)
      ensures CreateStep(s, s', entry, stack)
    {
    }

    /** The words stored at the top of a new stack; the result is the stack pointer below them. */
    method FillStack(entry: nat, stack: nat) returns (top: nat)
      modifies this`mem
      ensures top == stack + STACK_SIZE - 64 && mem == NewStack(old(mem), stack, entry, exit)
    {
      top := stack + STACK_SIZE;
      top := top - 8;
      mem := mem[top := exit];
      top := top - 8;
      mem := mem[top := entry];
      ghost var m := mem;
      for i := 0 to 6
        invariant top == stack + STACK_SIZE - 16 - 8 * i
        invariant mem == ZeroWords(m, stack + STACK_SIZE - 16, i)
      {
        top := top - 8;
        mem := mem[top := 0];
      }
      SixZeros(m, stack + STACK_SIZE - 16);
    }

    /** Links a thread behind the last one. */
    method Append(thread: Thread)
      requires Linked() && thread !in queue && thread.next == null
      modifies this`queue, queue
      ensures Linked() && queue == old(queue) + [thread] && thread.Value() == old(thread.Value())
      ensures Values(queue) == old(Values(queue)) + [thread.Value()]
    {
      hide Values;
      var curr := LastThread();
      ghost var was := Values(queue);
      curr.next := thread;
      queue := queue + [thread];
      assert Values(queue) == was + [thread.Value()];
    }
  }

  lemma SixZeros(m: Mem, top: nat)
    requires top >= 48
    ensures ZeroWords(m, top, 6) == m[top - 8 := 0][top - 16 := 0][top - 24 := 0][top - 32 := 0][top - 40 := 0][top - 48 := 0]
  {
    assert ZeroWords(m, top, 1) == m[top - 8 := 0] by { assert ZeroWords(m, top, 0) == m; }
    assert ZeroWords(m, top, 2) == m[top - 8 := 0][top - 16 := 0];
    assert ZeroWords(m, top, 4) == ZeroWords(m, top, 2)[top - 24 := 0][top - 32 := 0];
    assert ZeroWords(m, top, 6) == ZeroWords(m, top, 4)[top - 40 := 0][top - 48 := 0];
  }

  /** `n` zero words below `top`. */
  ghost function ZeroWords(m: Mem, top: nat, n: nat): Mem
    requires top >= 8 * n
  {
    if n == 0 then m else ZeroWords(m, top, n - 1)[top - 8 * n := 0]
  }
}
