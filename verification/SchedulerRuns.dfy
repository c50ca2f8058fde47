/** Runs of the scheduler: a thread that is switched back in continues where it left, a dead thread
    never runs again, and no ready thread waits for ever. */
module SchedulerRuns {
  import opened SchedulerModel

  ghost predicate Run(trace: seq<Sys>, steps: seq<Step>) {
    && |trace| == |steps| + 1
    && Inv(trace[0])
    && forall i, j :: 0 <= i < |steps| && j == i + 1 ==> Next(trace[i], trace[j], steps[i])
  }

  /** The invariant holds in every state of every run. */
  lemma {:induction false} RunKeepsInv(trace: seq<Sys>, steps: seq<Step>, k: nat)
    requires Run(trace, steps) && k < |trace|
    ensures Inv(trace[k])
  {
    if k > 0 {
      RunKeepsInv(trace, steps, k - 1);
      StepKeepsInv(trace[k - 1], trace[k], steps[k - 1]);
    }
  }

  // ----- single steps

  /** Threads keep their place in the queue, their id and their stack; a dead thread stays dead and
      is not the running one. */
  lemma StepStable(s: Sys, s': Sys, st: Step, i: nat)
    requires Inv(s) && Next(s, s', st) && i < |s.q|
    ensures |s.q| <= |s'.q| <= |s.q| + 1 && s'.q[i].id == s.q[i].id && s'.exit == s.exit
    ensures s'.Lo(i) == s.Lo(i) && s'.Hi(i) == s.Hi(i)
    ensures s.q[i].state.Dead? ==> s'.q[i].state.Dead? && s'.cur != i
    ensures i != s.cur && i != s'.cur ==> s'.q[i].state == s.q[i].state && s'.q[i].rsp == s.q[i].rsp
    ensures st.Tick? || st.Exit? || s'.cur == s.cur
  {
    hide PushAll, Restored, NewStack;
    match st
    case Tick =>
    case Exit =>
    case Create(entry, stack) =>
    case Work =>
  }

  /** What a thread would continue with survives every step it does not take part in. */
  lemma ContextKept(s: Sys, s': Sys, st: Step, i: nat)
    requires Inv(s) && Next(s, s', st) && i < |s.q| && s.q[i].state.Ready? && s'.cur != i
    ensures i < |s'.q| && s'.q[i].state.Ready? && s'.Context(i) == s.Context(i)
  {
    StepStable(s, s', st, i);
    var r := s.q[i].rsp;
    forall a | a in {r, r + 8, r + 16, r + 24, r + 32, r + 40, r + 48}
      ensures Load(s'.mem, a) == Load(s.mem, a)
    {
      StackUntouched(s, s', st, i, a);
    }
  }

  /** Leaving the processor saves exactly the registers of the moment. */
  lemma LeavingSaves(s: Sys, s': Sys, st: Step)
    requires Inv(s) && Next(s, s', st) && s'.cur != s.cur && !st.Exit?
    ensures s.cur < |s'.q| && s'.q[s.cur].state.Ready? && s'.Context(s.cur) == s.regs
  {
    hide PushAll, Restored, Switched, StacksOk;
    var n: nat :| IsNext(s.q, s.cur, n) && s' == if n == s.cur then s else Switched(s, n);
    SwitchSaves(s, n);
  }

  lemma SwitchSaves(s: Sys, n: nat)
    requires s.cur < |s.q| && n < |s.q| && n != s.cur && s.regs.rsp >= 56 && s.q[s.cur].state.Running?
    ensures var s' := Switched(s, n); |s'.q| == |s.q| && s'.q[s.cur].state.Ready? && s'.Context(s.cur) == s.regs
  {
    hide PushAll, Restored;
    PopUndoesPush(s.mem, s.regs);
  }

  /** Entering the processor restores exactly what was saved. */
  lemma EnteringRestores(s: Sys, s': Sys, st: Step)
    requires Inv(s) && Next(s, s', st) && s'.cur != s.cur
    ensures s'.cur < |s.q| && s.q[s'.cur].state.Ready? && s'.regs == s.Context(s'.cur)
  {
    hide PushAll, StacksOk;
    var d := if st.Exit? then Died(s) else s;
    var n: nat :| IsNext(d.q, d.cur, n) && s' == if n == d.cur then d else Switched(d, n);
    var r := s.q[n].rsp;
    forall a | a in {r, r + 8, r + 16, r + 24, r + 32, r + 40, r + 48}
      ensures Load(s'.mem, a) == Load(s.mem, a)
    {
      StackUntouched(s, s', st, n, a);
    }
  }

  // ----- coming back

  /** Thread `i` is not the running one in states `a` to `b` of the run. */
  ghost predicate Away(trace: seq<Sys>, i: nat, a: nat, b: nat) {
    a <= b < |trace| && forall k :: a <= k <= b ==> trace[k].cur != i
  }

  lemma {:induction false} AwayKeepsContext(trace: seq<Sys>, steps: seq<Step>, i: nat, a: nat, b: nat)
    requires Run(trace, steps) && Away(trace, i, a, b) && i < |trace[a].q| && trace[a].q[i].state.Ready?
    ensures i < |trace[b].q| && trace[b].q[i].state.Ready? && trace[b].Context(i) == trace[a].Context(i)
    decreases b
  {
    hide Inv, Next, Restored;
    if a < b {
      AwayKeepsContext(trace, steps, i, a, b - 1);
      RunKeepsInv(trace, steps, b - 1);
      ContextKept(trace[b - 1], trace[b], steps[b - 1], i);
    }
  }

  /** A thread that is preempted in state `a` and runs next in state `b` has the same stack pointer,
      callee-saved registers and return address as when it left. */
  lemma ResumesWhereItLeft(trace: seq<Sys>, steps: seq<Step>, i: nat, a: nat, b: nat)
    requires Run(trace, steps) && a + 1 < b < |trace| && trace[a].cur == i && trace[b].cur == i
    requires Away(trace, i, a + 1, b - 1) && !steps[a].Exit?
    ensures trace[b].regs == trace[a].regs
  {
    hide Inv, Next, Restored;
    RunKeepsInv(trace, steps, a);
    RunKeepsInv(trace, steps, a + 1);
    LeavingSaves(trace[a], trace[a + 1], steps[a]);
    AwayKeepsContext(trace, steps, i, a + 1, b - 1);
    RunKeepsInv(trace, steps, b - 1);
    EnteringRestores(trace[b - 1], trace[b], steps[b - 1]);
  }

  lemma {:induction false} AwayKeepsStack(trace: seq<Sys>, steps: seq<Step>, i: nat, a: nat, b: nat, at: nat)
    requires Run(trace, steps) && Away(trace, i, a, b) && i < |trace[a].q|
    requires trace[a].Lo(i) <= at < trace[a].Hi(i)
    ensures i < |trace[b].q| && Load(trace[b].mem, at) == Load(trace[a].mem, at) && trace[b].exit == trace[a].exit
    ensures trace[b].Lo(i) == trace[a].Lo(i) && trace[b].Hi(i) == trace[a].Hi(i)
    decreases b
  {
    hide Inv, Next, Restored;
    if a < b {
      AwayKeepsStack(trace, steps, i, a, b - 1, at);
      RunKeepsInv(trace, steps, b - 1);
      StepStable(trace[b - 1], trace[b], steps[b - 1], i);
      StackUntouched(trace[b - 1], trace[b], steps[b - 1], i, at);
    }
  }

  /** A new thread starts at its entry point, with cleared registers, near the top of its stack and
      with `kthread_exit` as the address it returns to. */
  lemma StartsAtEntry(trace: seq<Sys>, steps: seq<Step>, a: nat, b: nat)
    requires Run(trace, steps) && a + 1 < b < |trace| && steps[a].Create?
    requires var i := |trace[a].q|; trace[b].cur == i && Away(trace, i, a + 1, b - 1)
    ensures var top := steps[a].stack + 16384;
      trace[b].regs == Regs(top - 8, 0, 0, 0, 0, 0, 0, steps[a].entry)
    ensures Load(trace[b].mem, steps[a].stack + 16384 - 8) == trace[a].exit
  {
    hide Inv, Next, Restored;
    var i := |trace[a].q|;
    var top := steps[a].stack + STACK_SIZE;
    RunKeepsInv(trace, steps, a);
    RunKeepsInv(trace, steps, a + 1);
    Created(trace[a], trace[a + 1], steps[a]);
    NewContext(trace[a], trace[a + 1], steps[a].entry, steps[a].stack);
    AwayKeepsContext(trace, steps, i, a + 1, b - 1);
    AwayKeepsStack(trace, steps, i, a + 1, b - 1, top - 8);
    RunKeepsInv(trace, steps, b - 1);
    EnteringRestores(trace[b - 1], trace[b], steps[b - 1]);
    StackUntouched(trace[b - 1], trace[b], steps[b - 1], i, top - 8);
  }

  lemma Created(s: Sys, s': Sys, st: Step)
    requires st.Create? && Next(s, s', st)
    ensures CreateStep(s, s', st.entry, st.stack)
  {
  }

  lemma NewContext(s: Sys, s': Sys, entry: nat, stack: nat)
    requires Inv(s) && CreateStep(s, s', entry, stack)
    ensures var i, top := |s.q|, stack + STACK_SIZE;
      && |s'.q| == i + 1 && i > 0 && s'.q[i].state.Ready? && s'.Lo(i) == stack && s'.Hi(i) == top
      && s'.Context(i) == Regs(top - 8, 0, 0, 0, 0, 0, 0, entry) && Load(s'.mem, top - 8) == s.exit && s'.cur != i
  {
  }

  /** A dead thread never runs again. */
  lemma {:induction false} DeadStaysDead(trace: seq<Sys>, steps: seq<Step>, i: nat, a: nat, b: nat)
    requires Run(trace, steps) && a <= b < |trace| && i < |trace[a].q| && trace[a].q[i].state.Dead?
    ensures i < |trace[b].q| && trace[b].q[i].state.Dead? && trace[b].cur != i
    decreases b
  {
    hide Next, StacksOk, FramesOk;
    RunKeepsInv(trace, steps, b);
    if a < b {
      DeadStaysDead(trace, steps, i, a, b - 1);
      RunKeepsInv(trace, steps, b - 1);
      StepStable(trace[b - 1], trace[b], steps[b - 1], i);
    }
  }

  // ----- the ring of live threads

  /** The ids of the threads that are not dead, in list order. */
  function LiveIds(q: seq<Tcb>): seq<nat> {
    if q == [] then []
    else LiveIds(q[..|q| - 1]) + if q[|q| - 1].state.Dead? then [] else [q[|q| - 1].id]
  }

  /** The live threads behind the running one, in the order the search meets them. */
  function Waiting(s: Sys): seq<nat>
    requires s.cur < |s.q|
  {
    LiveIds(s.q[s.cur + 1..]) + LiveIds(s.q[..s.cur])
  }

  lemma {:induction false} LiveIdsJoin(p: seq<Tcb>, q: seq<Tcb>)
    ensures LiveIds(p + q) == LiveIds(p) + LiveIds(q)
  {
    if q == [] {
      assert p + q == p;
    } else {
      assert (p + q)[..|p + q| - 1] == p + q[..|q| - 1];
      LiveIdsJoin(p, q[..|q| - 1]);
    }
  }

  lemma {:induction false} AllDead(q: seq<Tcb>)
    requires forall i :: 0 <= i < |q| ==> q[i].state.Dead?
    ensures LiveIds(q) == []
  {
    if q != [] { AllDead(q[..|q| - 1]); }
  }

  /** The list depends on ids and deadness only. */
  lemma {:induction false} LiveIdsSame(p: seq<Tcb>, q: seq<Tcb>)
    requires |p| == |q| && forall i :: 0 <= i < |p| ==> p[i].id == q[i].id && (p[i].state.Dead? <==> q[i].state.Dead?)
    ensures LiveIds(p) == LiveIds(q)
  {
    if p != [] { LiveIdsSame(p[..|p| - 1], q[..|q| - 1]); }
  }

  lemma LiveIdsOne(t: Tcb)
    ensures LiveIds([t]) == if t.state.Dead? then [] else [t.id]
  {
    assert LiveIds([t][..0]) == [];
  }

  /** The thread the search finds is the first of the ring, and behind it come the rest of the ring
      and, if it lives, the thread that was running. */
  lemma NextIsFirst(q: seq<Tcb>, cur: nat, n: nat)
    requires IsNext(q, cur, n)
    ensures n != cur ==>
      LiveIds(q[cur + 1..]) + LiveIds(q[..cur + 1]) == [q[n].id] + LiveIds(q[n + 1..]) + LiveIds(q[..n])
    ensures n == cur ==> LiveIds(q[cur + 1..]) + LiveIds(q[..cur]) == []
  {
    if n > cur {
      NextBehind(q, cur, n);
    } else {
      AllDead(q[cur + 1..]);
      AllDead(q[..n]);
      if n < cur {
        assert q[..cur + 1] == q[..n] + [q[n]] + q[n + 1..cur + 1];
        assert q[n + 1..] == q[n + 1..cur + 1] + q[cur + 1..];
        JoinThree(q[..n], q[n], q[n + 1..cur + 1]);
        LiveIdsJoin(q[n + 1..cur + 1], q[cur + 1..]);
      }
    }
  }

  lemma NextBehind(q: seq<Tcb>, cur: nat, n: nat)
    requires IsNext(q, cur, n) && n > cur
    ensures LiveIds(q[cur + 1..]) + LiveIds(q[..cur + 1]) == [q[n].id] + LiveIds(q[n + 1..]) + LiveIds(q[..n])
  {
    assert q[cur + 1..] == q[cur + 1..n] + [q[n]] + q[n + 1..];
    assert q[..n] == q[..cur + 1] + q[cur + 1..n];
    AllDead(q[cur + 1..n]);
    JoinThree(q[cur + 1..n], q[n], q[n + 1..]);
    LiveIdsJoin(q[..cur + 1], q[cur + 1..n]);
  }

  lemma JoinThree(p: seq<Tcb>, t: Tcb, q: seq<Tcb>)
    requires !t.state.Dead?
    ensures LiveIds(p + [t] + q) == LiveIds(p) + [t.id] + LiveIds(q)
  {
    LiveIdsJoin(p, [t]);
    LiveIdsJoin(p + [t], q);
    LiveIdsOne(t);
  }

  lemma SplitAtCur(q: seq<Tcb>, cur: nat)
    requires cur < |q|
    ensures LiveIds(q[..cur + 1]) == LiveIds(q[..cur]) + if q[cur].state.Dead? then [] else [q[cur].id]
  {
    assert q[..cur + 1] == q[..cur] + [q[cur]];
    LiveIdsJoin(q[..cur], [q[cur]]);
    LiveIdsOne(q[cur]);
  }

  lemma Rotate(w: seq<nat>, c: nat, x: nat, rest: seq<nat>)
    requires w + [c] == [x] + rest && c != x
    ensures w != [] && w[0] == x && rest == w[1..] + [c]
  {
    assert (w + [c])[|w|] == c;
    if w != [] {
      assert (w + [c])[0] == w[0];
      assert rest == (w + [c])[1..] == w[1..] + [c];
    }
  }

  /** The ring after a switch to `n`, in terms of the queue before it. */
  lemma RingAfterSwitch(s: Sys, n: nat)
    requires s.cur < |s.q| && n < |s.q| && n != s.cur && s.regs.rsp >= 56
    ensures Switched(s, n).cur == n && |Switched(s, n).q| == |s.q| && Switched(s, n).q[n].id == s.q[n].id
    ensures Waiting(Switched(s, n)) == LiveIds(s.q[n + 1..]) + LiveIds(s.q[..n])
  {
    hide PushAll, Restored, LiveIds;
    var s' := Switched(s, n);
    LiveIdsSame(s.q[n + 1..], s'.q[n + 1..]);
    LiveIdsSame(s.q[..n], s'.q[..n]);
  }

  /** One scheduling step rotates the ring: the first waiting thread runs, and the one that ran goes
      to the end, or nowhere if it is dead. */
  lemma TickRotates(s: Sys, s': Sys)
    requires Inv(s) && TickStep(s, s')
    ensures Waiting(s) == [] ==> s' == s
    ensures Waiting(s) != [] ==> s'.cur < |s'.q| && s'.q[s'.cur].id == Waiting(s)[0] && Waiting(s') == Waiting(s)[1..] + [s.q[s.cur].id]
  {
    hide Switched, StacksOk, FramesOk, LiveIds;
    var n: nat :| IsNext(s.q, s.cur, n) && s' == if n == s.cur then s else Switched(s, n);
    NextIsFirst(s.q, s.cur, n);
    SplitAtCur(s.q, s.cur);
    if n != s.cur {
      RingAfterSwitch(s, n);
      var c, x := s.q[s.cur].id, s.q[n].id;
      assert c != x;
      assert Waiting(s) + [c] == LiveIds(s.q[s.cur + 1..]) + LiveIds(s.q[..s.cur + 1]);
      assert Waiting(s) + [c] == [x] + Waiting(s');
      Rotate(Waiting(s), c, x, Waiting(s'));
    }
  }

  lemma ExitRotates(s: Sys, s': Sys)
    requires Inv(s) && ExitStep(s, s')
    ensures Waiting(s) != [] && s'.cur < |s'.q| && s'.q[s'.cur].id == Waiting(s)[0] && Waiting(s') == Waiting(s)[1..]
  {
    hide Switched, StacksOk, FramesOk, LiveIds;
    var d := Died(s);
    var n: nat :| IsNext(d.q, d.cur, n) && s' == if n == d.cur then d else Switched(d, n);
    NextIsFirst(d.q, d.cur, n);
    SplitAtCur(d.q, d.cur);
    LiveIdsSame(s.q[s.cur + 1..], d.q[s.cur + 1..]);
    LiveIdsSame(s.q[..s.cur], d.q[..s.cur]);
    RingAfterSwitch(d, n);
    assert n != d.cur;
    assert LiveIds(d.q[..d.cur + 1]) == LiveIds(s.q[..s.cur]);
    assert Waiting(s) == [d.q[n].id] + (LiveIds(d.q[n + 1..]) + LiveIds(d.q[..n]));
  }

  lemma CreateInserts(s: Sys, s': Sys, entry: nat, stack: nat)
    requires Inv(s) && CreateStep(s, s', entry, stack)
    ensures s'.cur == s.cur && exists k :: 0 <= k <= |Waiting(s)| && Waiting(s') == Waiting(s)[..k] + [s.nextId] + Waiting(s)[k..]
  {
    hide NewStack, StacksOk, FramesOk, LiveIds;
    var t := s'.q[|s.q|];
    assert s'.q[s.cur + 1..] == s.q[s.cur + 1..] + [t] && s'.q[..s.cur] == s.q[..s.cur];
    LiveIdsJoin(s.q[s.cur + 1..], [t]);
    LiveIdsOne(t);
    var k := |LiveIds(s.q[s.cur + 1..])|;
    assert Waiting(s') == Waiting(s)[..k] + [s.nextId] + Waiting(s)[k..];
  }

  // ----- bounded waiting

  /** Thread `id` waits with `k` threads before it. */
  predicate WaitsAt(s: Sys, id: nat, k: nat)
    requires s.cur < |s.q|
  {
    k < |Waiting(s)| && Waiting(s)[k] == id
  }

  /** Every scheduling step moves every waiting thread forward by exactly one place, and only the
      creation of a thread can move it back, by one. */
  lemma RankStep(s: Sys, s': Sys, st: Step, id: nat, k: nat)
    requires Inv(s) && Next(s, s', st) && WaitsAt(s, id, k)
    ensures s'.cur < |s'.q|
    ensures st.Tick? || st.Exit? ==> if k == 0 then s'.q[s'.cur].id == id else WaitsAt(s', id, k - 1)
    ensures st.Create? ==> WaitsAt(s', id, k) || WaitsAt(s', id, k + 1)
    ensures st.Work? ==> WaitsAt(s', id, k)
  {
    hide StacksOk, FramesOk, LiveIds;
    match st
    case Tick => TickRotates(s, s');
    case Exit => ExitRotates(s, s');
    case Create(entry, stack) => CreateInserts(s, s', entry, stack);
    case Work =>
  }

  /** The number of scheduling steps and of creations in a run. */
  function Switches(steps: seq<Step>): nat {
    if steps == [] then 0
    else Switches(steps[..|steps| - 1]) + if steps[|steps| - 1].Tick? || steps[|steps| - 1].Exit? then 1 else 0
  }

  function Creations(steps: seq<Step>): nat {
    if steps == [] then 0
    else Creations(steps[..|steps| - 1]) + if steps[|steps| - 1].Create? then 1 else 0
  }

  ghost predicate RunsIn(s: Sys, id: nat) { s.cur < |s.q| && s.q[s.cur].id == id }

  /** While a thread has not run, its place is bounded by the steps made and the threads created. */
  lemma {:induction false} StillWaiting(trace: seq<Sys>, steps: seq<Step>, id: nat, k: nat) returns (place: nat)
    requires Run(trace, steps) && WaitsAt(trace[0], id, k)
    requires forall s :: s in trace ==> !RunsIn(s, id)
    ensures Inv(trace[|steps|]) && WaitsAt(trace[|steps|], id, place) && place + Switches(steps) <= k + Creations(steps)
  {
    hide Inv, Next, Waiting;
    if steps == [] {
      return k;
    }
    var n := |steps| - 1;
    assert Run(trace[..n + 1], steps[..n]);
    assert forall s :: s in trace[..n + 1] ==> s in trace;
    var before := StillWaiting(trace[..n + 1], steps[..n], id, k);
    assert trace[..n + 1][n] == trace[n];
    RunKeepsInv(trace, steps, n + 1);
    RankStep(trace[n], trace[n + 1], steps[n], id, before);
    assert trace[n + 1] in trace;
    place := if steps[n].Work? then before
             else if steps[n].Create? then (if WaitsAt(trace[n + 1], id, before) then before else before + 1)
             else before - 1;
  }

  /** Bounded waiting: a thread with `k` live threads before it runs within `k + 1` scheduling steps,
      plus one for every thread created meanwhile. */
  lemma BoundedWaiting(trace: seq<Sys>, steps: seq<Step>, id: nat, k: nat)
    requires Run(trace, steps) && WaitsAt(trace[0], id, k)
    requires Switches(steps) >= k + 1 + Creations(steps)
    ensures exists s :: s in trace && RunsIn(s, id)
  {
    if forall s :: s in trace ==> !RunsIn(s, id) {
      var place := StillWaiting(trace, steps, id, k);
    }
  }
}
