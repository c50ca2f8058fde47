/** The round-robin scheduler and its context switch as a state machine: the thread queue, the
    machine state of the running thread, and the stacks that hold the state of the others. */
module SchedulerModel {

  // ----- the machine

  /** The stack pointer, the callee-saved registers (System V ABI AMD64 supplement, section 3.2.1)
      and the address execution continues at. */
  datatype Regs = Regs(rsp: nat, rbp: nat, rbx: nat, r12: nat, r13: nat, r14: nat, r15: nat, rip: nat)

  /** Memory as 8-byte words by address. */
  type Mem = map<nat, nat>

  function Load(m: Mem, a: nat): nat {
    if a in m then m[a] else 0
  }

  /** The return address, pushed by the call, and the six pushes of `context_switch`. */
  function PushAll(m: Mem, r: Regs): Mem
    requires r.rsp >= 56
  {
    m[r.rsp - 8 := r.rip][r.rsp - 16 := r.rbp][r.rsp - 24 := r.rbx][r.rsp - 32 := r.r12][r.rsp - 40 := r.r13][r.rsp - 48 := r.r14][r.rsp - 56 := r.r15]
  }

  /** What the six pops and the return of `context_switch` leave in the registers. */
  function Restored(m: Mem, rsp: nat): Regs {
    Regs(rsp + 56, Load(m, rsp + 40), Load(m, rsp + 32), Load(m, rsp + 24), Load(m, rsp + 16), Load(m, rsp + 8), Load(m, rsp), Load(m, rsp + 48))
  }

  /** Popping undoes pushing. */
  lemma PopUndoesPush(m: Mem, r: Regs)
    requires r.rsp >= 56
    ensures Restored(PushAll(m, r), r.rsp - 56) == r
  {
  }

  // ----- the queue

  datatype State = Ready | Running | Dead

  datatype Tcb = Tcb(id: nat, state: State, rsp: nat, stack: nat)

  const STACK_SIZE := 16384

  /** The queue in list order, the running thread, the next id, the machine state, the address of
      `kthread_exit` and the stack the boot thread came with. */
  datatype Sys = Sys(q: seq<Tcb>, cur: nat, nextId: nat, regs: Regs, mem: Mem, exit: nat, bootLo: nat, bootHi: nat) {
    function Lo(i: nat): nat
      requires i < |q|
    {
      if i == 0 then bootLo else q[i].stack
    }

    function Hi(i: nat): nat
      requires i < |q|
    {
      if i == 0 then bootHi else q[i].stack + STACK_SIZE
    }

    /** The registers thread `i` would continue with. */
    function Context(i: nat): Regs
      requires i < |q|
    {
      Restored(mem, q[i].rsp)
    }
  }

  /** `n` is the first thread that is not dead, searching the list from behind `cur` and around. */
  ghost predicate IsNext(q: seq<Tcb>, cur: nat, n: nat) {
    && cur < |q| && n < |q| && !q[n].state.Dead?
    && if n > cur then forall i :: cur < i < n ==> q[i].state.Dead?
       else forall i :: 0 <= i < n || cur < i < |q| ==> q[i].state.Dead?
  }

  lemma NextUnique(q: seq<Tcb>, cur: nat, m: nat, n: nat)
    requires IsNext(q, cur, m) && IsNext(q, cur, n)
    ensures m == n
  {
  }

  /** A switch from `cur` to `n`. */
  function Switched(s: Sys, n: nat): Sys
    requires s.cur < |s.q| && n < |s.q| && s.regs.rsp >= 56
  {
    var mem := PushAll(s.mem, s.regs);
    var last := s.q[s.cur];
    var q1 := s.q[s.cur := last.(state := if last.state.Running? then Ready else last.state, rsp := s.regs.rsp - 56)];
    s.(q := q1[n := q1[n].(state := Running)], cur := n, mem := mem, regs := Restored(mem, q1[n].rsp))
  }

  /** `schedule` */
  ghost predicate TickStep(s: Sys, s': Sys) {
    s.cur < |s.q| && s.regs.rsp >= 56
    && exists n: nat :: IsNext(s.q, s.cur, n) && s' == if n == s.cur then s else Switched(s, n)
  }

  /** `kthread_exit` of the running thread; there is no such step where every other thread is dead. */
  ghost predicate ExitStep(s: Sys, s': Sys) {
    s.cur < |s.q| && TickStep(s.(q := s.q[s.cur := s.q[s.cur].(state := Dead)]), s')
  }

  /** The words `kthread_create` stores at the top of a new stack. */
  function NewStack(m: Mem, stack: nat, entry: nat, exit: nat): Mem {
    var top := stack + STACK_SIZE;
    m[top - 8 := exit][top - 16 := entry][top - 24 := 0][top - 32 := 0][top - 40 := 0][top - 48 := 0][top - 56 := 0][top - 64 := 0]
  }

  /** A stack the heap may hand out: aligned, and clear of all stacks in use. */
  ghost predicate StackFits(s: Sys, stack: nat) {
    && stack % 8 == 0 && stack > 0
    && forall i :: 0 <= i < |s.q| ==> stack + STACK_SIZE <= s.Lo(i) || s.Hi(i) <= stack
  }

  /** The state with a new thread on the given stack. */
  function Made(s: Sys, entry: nat, stack: nat): Sys {
    s.(q := s.q + [Tcb(s.nextId, Ready, stack + STACK_SIZE - 64, stack)], nextId := s.nextId + 1,
       mem := NewStack(s.mem, stack, entry, s.exit))
  }

  /** `kthread_create` with the stack the heap handed out. */
  ghost predicate CreateStep(s: Sys, s': Sys, entry: nat, stack: nat) {
    StackFits(s, stack) && s' == Made(s, entry, stack)
  }

  /** The running thread computes: it may do anything with its registers and with all memory but the stacks
      of other threads, and leaves room on its own stack for a switch frame. */
  ghost predicate WorkStep(s: Sys, s': Sys) {
    && s.cur < |s.q|
    && s' == s.(regs := s'.regs, mem := s'.mem)
    && s.Lo(s.cur) + 56 <= s'.regs.rsp <= s.Hi(s.cur) && s'.regs.rsp % 8 == 0
    && forall i, a: nat :: 0 <= i < |s.q| && i != s.cur && s.Lo(i) <= a < s.Hi(i) ==> Load(s'.mem, a) == Load(s.mem, a)
  }

  datatype Step = Tick | Exit | Create(entry: nat, stack: nat) | Work

  ghost predicate Next(s: Sys, s': Sys, st: Step) {
    match st
    case Tick => TickStep(s, s')
    case Exit => ExitStep(s, s')
    case Create(entry, stack) => CreateStep(s, s', entry, stack)
    case Work => WorkStep(s, s')
  }

  // ----- the invariant

  ghost predicate QueueOk(s: Sys) {
    && s.cur < |s.q| && s.q[0].id == 0
    && (forall i, j :: 0 <= i < j < |s.q| ==> s.q[i].id < s.q[j].id)
    && (forall i :: 0 <= i < |s.q| ==> s.q[i].id < s.nextId)
    && (forall i :: 0 <= i < |s.q| ==> (s.q[i].state.Running? <==> i == s.cur))
  }

  ghost predicate StacksOk(s: Sys) {
    && (forall i :: 0 <= i < |s.q| ==> s.Lo(i) % 8 == 0 && s.Lo(i) > 0)
    && (forall i, j :: 0 <= i < j < |s.q| ==> s.Hi(i) <= s.Lo(j) || s.Hi(j) <= s.Lo(i))
  }

  /** Every ready thread has a switch frame on its own stack, and the running one has room for one. */
  ghost predicate FramesOk(s: Sys)
    requires s.cur < |s.q|
  {
    && (forall i :: 0 <= i < |s.q| && s.q[i].state.Ready? ==> s.Lo(i) <= s.q[i].rsp && s.q[i].rsp + 56 <= s.Hi(i) && s.q[i].rsp % 8 == 0)
    && s.Lo(s.cur) + 56 <= s.regs.rsp <= s.Hi(s.cur) && s.regs.rsp % 8 == 0
  }

  ghost predicate Inv(s: Sys) { QueueOk(s) && StacksOk(s) && FramesOk(s) }

  /** Some thread of the queue is not dead. */
  ghost predicate SomeAlive(q: seq<Tcb>) { exists i :: 0 <= i < |q| && !q[i].state.Dead? }

  /** The search has a thread to find exactly if some thread is not dead; otherwise it goes round for ever. */
  lemma NextExists(q: seq<Tcb>, cur: nat)
    requires cur < |q|
    ensures (exists n: nat :: IsNext(q, cur, n)) <==> SomeAlive(q)
  {
    if SomeAlive(q) {
      var i :| 0 <= i < |q| && !q[i].state.Dead?;
      var n := FirstAlive(q, cur + 1);
      if n < |q| {
        assert IsNext(q, cur, n);
      } else {
        var m := FirstAlive(q, 0);
        assert IsNext(q, cur, m);
      }
    }
  }

  /** The first thread from `k` on that is not dead, or the length of the queue. */
  function FirstAlive(q: seq<Tcb>, k: nat): (n: nat)
    requires k <= |q|
    ensures k <= n <= |q| && (n < |q| ==> !q[n].state.Dead?) && forall i :: k <= i < n ==> q[i].state.Dead?
    decreases |q| - k
  {
    if k == |q| || !q[k].state.Dead? then k else FirstAlive(q, k + 1)
  }

  /** In a state that keeps the invariant every schedule finds a thread, and an exit exactly if another
      thread is not dead. */
  lemma SchedulingEnds(s: Sys)
    requires Inv(s)
    ensures s.regs.rsp >= 56 && s.cur < |s.q| && SomeAlive(s.q)
    ensures SomeAlive(Died(s).q) <==> exists i :: 0 <= i < |s.q| && i != s.cur && !s.q[i].state.Dead?
    ensures (exists s' :: ExitStep(s, s')) <==> SomeAlive(Died(s).q)
  {
    hide StacksOk, Switched;
    assert !s.q[s.cur].state.Dead?;
    var d := Died(s);
    forall i | 0 <= i < |s.q| && i != s.cur && !s.q[i].state.Dead?
      ensures SomeAlive(d.q)
    {
      assert !d.q[i].state.Dead?;
    }
    NextExists(d.q, d.cur);
    if SomeAlive(d.q) {
      var n: nat :| IsNext(d.q, d.cur, n);
      assert ExitStep(s, if n == d.cur then d else Switched(d, n));
    }
  }

  /** The state before a switch: like the invariant, but the current thread may just have died. */
  ghost predicate Switchable(s: Sys, n: nat) {
    && s.cur < |s.q| && n < |s.q| && n != s.cur && s.q[n].state.Ready?
    && s.q[0].id == 0 && !s.q[s.cur].state.Ready?
    && (forall i, j :: 0 <= i < j < |s.q| ==> s.q[i].id < s.q[j].id)
    && (forall i :: 0 <= i < |s.q| ==> s.q[i].id < s.nextId && (i != s.cur ==> !s.q[i].state.Running?))
    && StacksOk(s) && FramesOk(s)
  }

  /** The queue after a switch, thread by thread. */
  lemma SwitchedQueue(s: Sys, n: nat)
    requires Switchable(s, n) && s.regs.rsp >= 56
    ensures var s' := Switched(s, n);
      && |s'.q| == |s.q|
      && (forall i :: 0 <= i < |s.q| ==> s'.q[i].id == s.q[i].id && s'.q[i].stack == s.q[i].stack)
      && (forall i :: 0 <= i < |s.q| ==> s'.q[i].state == if i == n then Running else if i == s.cur && s.q[i].state.Running? then Ready else s.q[i].state)
      && (forall i :: 0 <= i < |s.q| ==> s'.q[i].rsp == if i == s.cur then s.regs.rsp - 56 else s.q[i].rsp)
      && s'.regs.rsp == s.q[n].rsp + 56
  {
    hide PushAll, StacksOk, FramesOk;
  }

  lemma SwitchKeepsInv(s: Sys, n: nat)
    requires Switchable(s, n) && s.regs.rsp >= 56
    ensures Inv(Switched(s, n))
  {
    SwitchedQueue(s, n);
    hide PushAll, Restored, Switched;
    var s' := Switched(s, n);
    SwitchedStacks(s, n);
    hide StacksOk;
    assert s'.cur == n && s'.nextId == s.nextId && s'.bootLo == s.bootLo && s'.bootHi == s.bootHi by { SwitchedRest(s, n); }
    SameStacks(s, s');
    assert QueueOk(s');
  }

  lemma SwitchedStacks(s: Sys, n: nat)
    requires Switchable(s, n) && s.regs.rsp >= 56
    ensures StacksOk(Switched(s, n))
  {
    SwitchedQueue(s, n);
    SwitchedRest(s, n);
    hide Switched, FramesOk;
    SameStacks(s, Switched(s, n));
  }

  lemma SwitchedRest(s: Sys, n: nat)
    requires s.cur < |s.q| && n < |s.q| && s.regs.rsp >= 56
    ensures var s' := Switched(s, n); s'.cur == n && s'.nextId == s.nextId && s'.bootLo == s.bootLo && s'.bootHi == s.bootHi
  {
  }

  lemma SameStacks(s: Sys, s': Sys)
    requires |s.q| <= |s'.q| && s'.bootLo == s.bootLo && s'.bootHi == s.bootHi
    requires forall i :: 0 <= i < |s.q| ==> s'.q[i].stack == s.q[i].stack
    ensures forall i :: 0 <= i < |s.q| ==> s'.Lo(i) == s.Lo(i) && s'.Hi(i) == s.Hi(i)
  {
  }

  /** A step that keeps the running thread or switches to the next one. */
  lemma TickKeepsInv(s: Sys, s': Sys)
    requires Inv(s) && TickStep(s, s')
    ensures Inv(s')
  {
    hide PushAll, Restored, Switched;
    var n: nat :| IsNext(s.q, s.cur, n) && s' == if n == s.cur then s else Switched(s, n);
    if n != s.cur { SwitchKeepsInv(s, n); }
  }

  /** The state of `kthread_exit` between marking the thread dead and switching. */
  function Died(s: Sys): Sys
    requires s.cur < |s.q|
  {
    s.(q := s.q[s.cur := s.q[s.cur].(state := Dead)])
  }

  lemma ExitKeepsInv(s: Sys, s': Sys)
    requires Inv(s) && ExitStep(s, s')
    ensures Inv(s') && s'.cur != s.cur
  {
    hide PushAll, Restored, Switched;
    var d := Died(s);
    var n: nat :| IsNext(d.q, d.cur, n) && s' == if n == d.cur then d else Switched(d, n);
    SameStacks(s, d);
    SwitchKeepsInv(d, n);
    SwitchedRest(d, n);
  }

  lemma CreateKeepsInv(s: Sys, s': Sys, entry: nat, stack: nat)
    requires Inv(s) && CreateStep(s, s', entry, stack)
    ensures Inv(s')
  {
    CreateKeepsQueue(s, s', entry, stack);
    CreateKeepsStacks(s, s', entry, stack);
  }

  lemma CreateKeepsQueue(s: Sys, s': Sys, entry: nat, stack: nat)
    requires QueueOk(s) && FramesOk(s) && CreateStep(s, s', entry, stack)
    ensures QueueOk(s') && FramesOk(s')
  {
    hide NewStack;
    SameStacks(s, s');
  }

  lemma CreateKeepsStacks(s: Sys, s': Sys, entry: nat, stack: nat)
    requires s.q != [] && StacksOk(s) && CreateStep(s, s', entry, stack)
    ensures StacksOk(s')
  {
    hide NewStack;
    SameStacks(s, s');
  }

  /** Every step of every kind keeps the invariant. */
  lemma StepKeepsInv(s: Sys, s': Sys, st: Step)
    requires Inv(s) && Next(s, s', st)
    ensures Inv(s')
  {
    match st
    case Tick => TickKeepsInv(s, s');
    case Exit => ExitKeepsInv(s, s');
    case Create(entry, stack) => CreateKeepsInv(s, s', entry, stack);
    case Work =>
      SameStacks(s, s');
  }

  // ----- what a thread finds when it comes back

  /** The stack of a thread that does not run is not written to. */
  lemma StackUntouched(s: Sys, s': Sys, st: Step, i: nat, a: nat)
    requires Inv(s) && Next(s, s', st) && i < |s.q| && i != s.cur && s.Lo(i) <= a < s.Hi(i)
    ensures Load(s'.mem, a) == Load(s.mem, a)
  {
    assert !(s.Lo(s.cur) <= a < s.Hi(s.cur));
    match st
    case Tick =>
    case Exit =>
    case Create(entry, stack) =>
      assert stack + STACK_SIZE <= s.Lo(i) || s.Hi(i) <= stack;
    case Work =>
  }
}
