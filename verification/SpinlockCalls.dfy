/**
 What a whole call of `spin_lock` or `spin_unlock` does, with other processors stepping and its own
 processor being trapped in between.
 */
module SpinlockCalls {
  import opened Spinlock

  /** Who runs on a processor: a task, or the handler of the trap it took. */
  datatype Who = Task(t: nat) | Handler

  function Caller(cpu: Cpu): Who {
    if cpu.trapped then Handler else Task(cpu.task)
  }

  /** The locks held after a call that began with `held`. */
  function After(op: Op, held: set<nat>): set<nat> {
    if op.Lock? then held + {op.l} else held - {op.l}
  }

  predicate Under(at: Push, op: Op) {
    at == Inner(op) || (op.Lock? && at == Outer(op.l))
  }

  /**
   At this point of the call, begun with `held0`: nothing has changed before the exchange or the release,
   everything has after it. Back at `Run` the call is done.
   */
  predicate Calling(pc: Pc, held: set<nat>, op: Op, held0: set<nat>) {
    match pc
    case Run => held == After(op, held0)
    case ReadIF(at) => Under(at, op) && held == held0
    case ClearIF(at, _) => Under(at, op) && held == held0
    case Enter(at, _) => Under(at, op) && held == held0
    case ReadLocked(o) => o == op && held == held0
    case ReadCpu(o, _) => o == op && held == held0
    case Leave(o, _) => o == op && held == held0
    case Decide(o, _) => o == op && held == held0
    case Xchg(l) => op == Lock(l) && held == held0
    case SetCpu(l) => op == Lock(l) && held == After(op, held0)
    case ClearCpu(l) => op == Unlock(l) && held == held0
    case Release(l) => op == Unlock(l) && held == held0
    case Pop => op.Unlock? && held == After(op, held0)
    case Panicked => false
  }

  /** The caller is at such a point, or waits at one, holding nothing. */
  ghost predicate Pending(cpu: Cpu, who: Who, op: Op, held0: set<nat>) {
    if Caller(cpu) == who then Calling(cpu.pc, cpu.held, op, held0)
    else
      && who.Task?
      && exists k :: 0 <= k < |cpu.saved| && cpu.saved[k].task == who.t && Calling(cpu.saved[k].pc, {}, op, held0)
  }

  /** A step by which `who` on `c` makes a call, or by which a handler ends. */
  predicate Moves(m: Machine, step: Step, c: nat, who: Who)
    requires c < |m.cpus|
  {
    step.c == c && Caller(m.cpus[c]) == who && (step.Call? || (who.Handler? && step.Return?))
  }

  ghost predicate NoOtherCall(m: Machine, steps: seq<Step>, c: nat, who: Who)
    requires AllEnabled(m, steps)
    decreases |steps|
  {
    steps == [] || (c < |m.cpus| && !Moves(m, steps[0], c, who) && NoOtherCall(Apply(m, steps[0]), steps[1..], c, who))
  }

  // ---- One step

  /** Where an access leads, if it does not panic. */
  predicate Goes(m: Machine, c: nat, pc': Pc, held': set<nat>)
    requires c < |m.cpus|
  {
    var cpu := m.cpus[c];
    match cpu.pc
    case Run => pc' == Run && held' == cpu.held
    case ReadIF(at) => pc'.ClearIF? && pc'.at == at && held' == cpu.held
    case ClearIF(at, _) => pc'.Enter? && pc'.at == at && held' == cpu.held
    case Enter(at, _) => pc' == AfterPush(at) && held' == cpu.held
    case ReadLocked(op) => pc'.ReadCpu? && pc'.op == op && held' == cpu.held
    case ReadCpu(op, _) => pc'.Leave? && pc'.op == op && held' == cpu.held
    case Leave(op, r) => pc' == Decide(op, r) && held' == cpu.held
    case Decide(op, r) => pc' == (if op.Lock? then Xchg(op.l) else ClearCpu(op.l)) && held' == cpu.held
    case Xchg(l) =>
      if l < |m.locked| && !m.locked[l] then pc' == SetCpu(l) && held' == cpu.held + {l}
      else pc' == cpu.pc && held' == cpu.held
    case SetCpu(l) => pc' == Run && held' == cpu.held
    case ClearCpu(l) => pc' == Release(l) && held' == cpu.held
    case Release(l) => pc' == Pop && held' == cpu.held - {l}
    case Pop => pc' == Run && held' == cpu.held
    case Panicked => false
  }

  lemma PushGoesOn(cpu: Cpu, oldIF: bool, next: Pc)
    ensures var cpu' := PushCli(cpu, oldIF, next); cpu'.held == cpu.held && (cpu'.pc == next || cpu'.pc.Panicked?)
  {
    if cpu.count == 0 && cpu.hasIF {
    } else if cpu.count == 0 {
    } else {
    }
  }

  lemma PopGoesOn(cpu: Cpu, next: Pc)
    ensures var cpu' := PopCli(cpu, next); cpu'.held == cpu.held && (cpu'.pc == next || cpu'.pc.Panicked?)
  {
  }

  lemma NotPanicked(cpu: Cpu, n: nat)
    requires CpuRight(cpu, n)
    ensures !cpu.pc.Panicked?
    ensures var pc := cpu.pc; pc.SetCpu? || pc.ClearCpu? || pc.Release? ==> pc.l < n
  {
  }

  lemma MicroGoes(m: Machine, c: nat)
    requires Right(m) && c < |m.cpus|
    ensures c < |MicroStep(m, c).cpus|
    ensures var cpu' := MicroStep(m, c).cpus[c]; Goes(m, c, cpu'.pc, cpu'.held)
  {
    hide Right, CpuRight, PushCli, PopCli, AfterPush;
    TestsRight(m, c);
    MicroCpuRight(m, c);
    RightFacts(m);
    var cpu := m.cpus[c];
    NotPanicked(cpu, |m.locked|);
    NotPanicked(MicroStep(m, c).cpus[c], |m.locked|);
    match cpu.pc
    case Enter(at, oldIF) => PushGoesOn(cpu, oldIF, AfterPush(at));
    case Leave(op, r) => PopGoesOn(cpu, Decide(op, r));
    case Pop => PopGoesOn(cpu, Run);
    case _ =>
  }

  lemma MicroCalling(m: Machine, c: nat, op: Op, held0: set<nat>)
    requires Right(m) && c < |m.cpus| && Calling(m.cpus[c].pc, m.cpus[c].held, op, held0)
    ensures c < |MicroStep(m, c).cpus|
    ensures var cpu' := MicroStep(m, c).cpus[c]; Calling(cpu'.pc, cpu'.held, op, held0)
  {
    hide Right, MicroStep;
    MicroGoes(m, c);
  }

  /** Only tasks that hold nothing are interrupted or give up the processor. */
  lemma TrappedHoldsNothing(m: Machine, step: Step)
    requires Right(m) && AllTagged(m) && Enabled(m, step) && (step.Interrupt? || step.Yield?)
    ensures var cpu := m.cpus[step.c]; !cpu.trapped && cpu.held == {}
  {
    var cpu := m.cpus[step.c];
    assert CpuRight(cpu, |m.locked|) && Tagged(cpu);
    assert |cpu.held| == 0;
  }

  lemma TrapPending(cpu: Cpu, who: Who, op: Op, held0: set<nat>)
    requires Pending(cpu, who, op, held0) && !cpu.trapped && cpu.held == {}
    ensures Pending(Trap(cpu), who, op, held0)
  {
    hide Calling;
    var saved := Trap(cpu).saved;
    assert saved[|cpu.saved|] == Context(cpu.task, cpu.pc, cpu.intr);
    assert forall k :: 0 <= k < |cpu.saved| ==> saved[k] == cpu.saved[k];
  }

  lemma ResumePending(cpu: Cpu, k: nat, who: Who, op: Op, held0: set<nat>)
    requires Pending(cpu, who, op, held0) && who.Task? && Tagged(cpu) && cpu.trapped
    requires cpu.held == {} && k < |cpu.saved|
    ensures Pending(Resume(cpu, k), who, op, held0)
  {
    hide Calling;
    var i :| 0 <= i < |cpu.saved| && cpu.saved[i].task == who.t && Calling(cpu.saved[i].pc, {}, op, held0);
    if i != k {
      var saved := Resume(cpu, k).saved;
      assert saved[if i < k then i else i - 1] == cpu.saved[i];
      assert cpu.saved[k].task != who.t;
    }
  }

  lemma StepPending(m: Machine, step: Step, c: nat, who: Who, op: Op, held0: set<nat>)
    requires Right(m) && AllTagged(m) && Enabled(m, step) && c < |m.cpus| && !Moves(m, step, c, who)
    requires Pending(m.cpus[c], who, op, held0)
    ensures |Apply(m, step).cpus| == |m.cpus| && Pending(Apply(m, step).cpus[c], who, op, held0)
  {
    hide Right, MicroStep, Calling, Tagged, Trap, Resume, Pending, Moved, Holders;
    var cpu := m.cpus[c];
    assert Tagged(cpu);
    RightFacts(m);
    StepRefines(m, step);
    if step.c != c {
    } else if step.Interrupt? || step.Yield? {
      TrappedHoldsNothing(m, step);
      TrapPending(cpu, who, op, held0);
    } else if step.Return? {
      OnlyTasksWait(cpu, who, op, held0);
      ResumePending(cpu, step.k, who, op, held0);
    } else {
      OwnStepKeeps(m, step, c);
      InFrontCalls(cpu, who, op, held0);
      if step.Micro? && Caller(cpu) == who {
        MicroCalling(m, c, op, held0);
      }
      SamePending(cpu, Apply(m, step).cpus[c], who, op, held0);
    }
  }

  lemma OnlyTasksWait(cpu: Cpu, who: Who, op: Op, held0: set<nat>)
    requires Pending(cpu, who, op, held0) && Caller(cpu) != who
    ensures who.Task?
  {
  }

  lemma InFrontCalls(cpu: Cpu, who: Who, op: Op, held0: set<nat>)
    requires Pending(cpu, who, op, held0)
    ensures Caller(cpu) == who ==> Calling(cpu.pc, cpu.held, op, held0)
  {
  }

  lemma SamePending(cpu: Cpu, cpu': Cpu, who: Who, op: Op, held0: set<nat>)
    requires Pending(cpu, who, op, held0) && SameTask(cpu, cpu')
    requires Caller(cpu) == who ==> Calling(cpu'.pc, cpu'.held, op, held0)
    ensures Pending(cpu', who, op, held0)
  {
    hide Calling;
  }

  lemma {:induction false} RunPending(m: Machine, steps: seq<Step>, c: nat, who: Who, op: Op, held0: set<nat>)
    requires Right(m) && AllTagged(m) && AllEnabled(m, steps) && c < |m.cpus| && NoOtherCall(m, steps, c, who)
    requires Pending(m.cpus[c], who, op, held0)
    ensures |RunAll(m, steps).cpus| == |m.cpus| && Pending(RunAll(m, steps).cpus[c], who, op, held0)
    decreases |steps|
  {
    hide Right, AllTagged, Enabled, Apply, Pending, Moves;
    if steps != [] {
      StepRight(m, steps[0]);
      StepTagged(m, steps[0]);
      StepPending(m, steps[0], c, who, op, held0);
      RunPending(Apply(m, steps[0]), steps[1..], c, who, op, held0);
    }
  }

  // ---- The call

  /** What the caller holds is marked, and named unless the name is just being written. */
  lemma HeldIsMarked(m: Machine, c: nat, l: nat)
    requires Right(m) && c < |m.cpus| && l in m.cpus[c].held
    ensures l < |m.locked| == |m.owner| && m.locked[l] && (m.cpus[c].pc.Run? ==> m.owner[l] == c)
  {
    assert l in Holders(m)[c];
    assert CpuRight(m.cpus[c], |m.locked|);
    assert m.owner[l] == c <==> Signed(m, c, l);
  }

  /**
   A call that is back where it was made has done exactly its work: `spin_lock` has added its lock to those
   the caller holds, and the lock is marked and carries the processor's number; `spin_unlock` has taken its lock
   away. Other processors take any steps in between; the caller may be trapped and resumed any number of times.
   */
  lemma CallDone(m: Machine, c: nat, op: Op, steps: seq<Step>)
    requires Right(m) && AllTagged(m) && Enabled(m, Call(c, op)) && AllEnabled(Apply(m, Call(c, op)), steps)
    requires NoOtherCall(Apply(m, Call(c, op)), steps, c, Caller(m.cpus[c]))
    ensures var cpu, m' := m.cpus[c], RunAll(Apply(m, Call(c, op)), steps);
            && c < |m'.cpus|
            && (Caller(m'.cpus[c]) == Caller(cpu) && m'.cpus[c].pc.Run? ==>
                  && m'.cpus[c].held == After(op, cpu.held)
                  && op.l < |m'.locked| == |m'.owner|
                  && (op.Lock? ==> op.l !in cpu.held && m'.locked[op.l] && m'.owner[op.l] == c)
                  && (op.Unlock? ==> op.l in cpu.held && m'.owner[op.l] != c))
  {
    var cpu, m1 := m.cpus[c], Apply(m, Call(c, op));
    StepRight(m, Call(c, op));
    StepTagged(m, Call(c, op));
    RunPending(m1, steps, c, Caller(cpu), op, cpu.held);
    RunRight(m1, steps);
    var m' := RunAll(m1, steps);
    RunSizes(m1, steps);
    if Caller(m'.cpus[c]) == Caller(cpu) && m'.cpus[c].pc.Run? {
      if op.Lock? {
        HeldIsMarked(m', c, op.l);
      } else {
        NotHeldNotNamed(m', c, op.l);
      }
    }
  }

  lemma NotHeldNotNamed(m: Machine, c: nat, l: nat)
    requires Right(m) && c < |m.cpus| && l !in m.cpus[c].held && l < |m.locked|
    ensures l < |m.owner| && m.owner[l] != c
  {
    assert m.owner[l] == c <==> Signed(m, c, l);
  }

  lemma {:induction false} RunSizes(m: Machine, steps: seq<Step>)
    requires Right(m) && AllEnabled(m, steps)
    ensures |RunAll(m, steps).locked| == |m.locked| && |RunAll(m, steps).cpus| == |m.cpus|
    decreases |steps|
  {
    hide Right, Enabled, Apply;
    if steps != [] {
      StepRefines(m, steps[0]);
      StepRight(m, steps[0]);
      RunSizes(Apply(m, steps[0]), steps[1..]);
    }
  }

  lemma {:induction false} RunTagged(m: Machine, steps: seq<Step>)
    requires Right(m) && AllTagged(m) && AllEnabled(m, steps)
    ensures Right(RunAll(m, steps)) && AllTagged(RunAll(m, steps))
    decreases |steps|
  {
    hide Right, AllTagged, Enabled, Apply;
    if steps != [] {
      StepRight(m, steps[0]);
      StepTagged(m, steps[0]);
      RunTagged(Apply(m, steps[0]), steps[1..]);
    }
  }

  /**
   From the start of the machine, after any run and through any run: a caller that is back from `spin_lock` holds
   its lock, alone among all processors, with interrupts off.
   */
  lemma LockedAlone(m: Machine, before: seq<Step>, c: nat, l: nat, steps: seq<Step>, d: nat)
    requires Initial(m) && AllEnabled(m, before) && Enabled(RunAll(m, before), Call(c, Lock(l)))
    requires var m0 := RunAll(m, before);
             && |m0.locked| == |m0.owner| && AllEnabled(Apply(m0, Call(c, Lock(l))), steps)
             && NoOtherCall(Apply(m0, Call(c, Lock(l))), steps, c, Caller(m0.cpus[c]))
    ensures var m0 := RunAll(m, before);
            var cpus := RunAll(Apply(m0, Call(c, Lock(l))), steps).cpus;
            && c < |cpus|
            && (Caller(cpus[c]) == Caller(m0.cpus[c]) && cpus[c].pc.Run? ==>
                  && l in cpus[c].held && !cpus[c].intr
                  && (d < |cpus| && d != c ==> l !in cpus[d].held))
  {
    InitialRight(m);
    RunTagged(m, before);
    var m0 := RunAll(m, before);
    CallDone(m0, c, Lock(l), steps);
    StepRight(m0, Call(c, Lock(l)));
    RunRight(Apply(m0, Call(c, Lock(l))), steps);
    var m' := RunAll(Apply(m0, Call(c, Lock(l))), steps);
    hide Apply, Enabled, AllEnabled, RunAll, NoOtherCall, Initial;
    if Caller(m'.cpus[c]) == Caller(m0.cpus[c]) && m'.cpus[c].pc.Run? {
      OneHolder(m', c, d, l);
    }
  }

  lemma OneHolder(m: Machine, c: nat, d: nat, l: nat)
    requires Right(m) && c < |m.cpus| && l in m.cpus[c].held
    ensures !m.cpus[c].intr && (d < |m.cpus| && d != c ==> l !in m.cpus[d].held)
  {
    assert CpuRight(m.cpus[c], |m.locked|);
    assert |m.cpus[c].held| > 0;
    assert l in Holders(m)[c];
    assert d < |m.cpus| ==> Holders(m)[d] == m.cpus[d].held;
  }

  // ---- A call that nobody is in the way of

  /** How many accesses are left of the call. */
  function Left(pc: Pc): nat {
    match pc
    case ReadIF(at) => if at.Outer? then 12 else if at.op.Lock? then 9 else 10
    case ClearIF(at, _) => if at.Outer? then 11 else if at.op.Lock? then 8 else 9
    case Enter(at, _) => if at.Outer? then 10 else if at.op.Lock? then 7 else 8
    case ReadLocked(op) => if op.Lock? then 6 else 7
    case ReadCpu(op, _) => if op.Lock? then 5 else 6
    case Leave(op, _) => if op.Lock? then 4 else 5
    case Decide(op, _) => if op.Lock? then 3 else 4
    case Xchg(_) => 2
    case SetCpu(_) => 1
    case ClearCpu(_) => 3
    case Release(_) => 2
    case Pop => 1
    case _ => 0
  }

  function Micros(c: nat, n: nat): seq<Step> {
    if n == 0 then [] else [Micro(c)] + Micros(c, n - 1)
  }

  /** Every access is one less to go, unless it is an exchange that finds the lock taken. */
  lemma OneLess(m: Machine, c: nat)
    requires Right(m) && c < |m.cpus| && Left(m.cpus[c].pc) > 0
    requires var pc := m.cpus[c].pc; pc.Xchg? ==> pc.l < |m.locked| && !m.locked[pc.l]
    ensures c < |MicroStep(m, c).cpus| && Left(MicroStep(m, c).cpus[c].pc) == Left(m.cpus[c].pc) - 1
  {
    hide Right, MicroStep;
    MicroGoes(m, c);
  }

  lemma ExchangeFree(m: Machine, c: nat, op: Op, held0: set<nat>)
    requires Right(m) && c < |m.cpus| && Calling(m.cpus[c].pc, m.cpus[c].held, op, held0) && op.l < |m.locked|
    requires op.Lock? && op.l !in m.cpus[c].held ==> !m.locked[op.l]
    ensures var pc := m.cpus[c].pc; pc.Xchg? ==> pc.l == op.l && !m.locked[pc.l]
  {
    assert CpuRight(m.cpus[c], |m.locked|);
  }

  lemma ExchangeTakes(m: Machine, c: nat)
    requires c < |m.cpus| && |m.locked| == |m.owner| && m.cpus[c].pc.Xchg?
    requires var l := m.cpus[c].pc.l; l < |m.locked| && !m.locked[l]
    ensures c < |MicroStep(m, c).cpus| && m.cpus[c].pc.l in MicroStep(m, c).cpus[c].held
  {
  }

  /** Only a release takes a lock away. */
  lemma HeldStays(m: Machine, c: nat, l: nat)
    requires c < |m.cpus| && |m.locked| == |m.owner| && l !in MicroStep(m, c).cpus[c].held
    ensures l in m.cpus[c].held ==> m.cpus[c].pc == Release(l)
  {
    hide PushCli, PopCli;
    var cpu := m.cpus[c];
    match cpu.pc
    case Enter(at, oldIF) => PushKeepsHeld(cpu, oldIF, at);
    case Leave(op, r) => PopKeepsHeld(cpu, Decide(op, r));
    case Pop => PopKeepsHeld(cpu, Run);
    case _ =>
  }

  lemma MarksAhead(m: Machine, c: nat, l: nat)
    requires c < |m.cpus| && l < |m.locked| == |m.owner| && !m.locked[l]
    requires !m.cpus[c].pc.Xchg?
    ensures var m' := MicroStep(m, c); |m'.locked| == |m.locked| && !m'.locked[l]
  {
    hide PushCli, PopCli;
  }

  lemma {:induction false} AloneToTheEnd(m: Machine, c: nat, op: Op, held0: set<nat>)
    requires Right(m) && c < |m.cpus| && Calling(m.cpus[c].pc, m.cpus[c].held, op, held0) && op.l < |m.locked|
    requires op.Lock? && op.l !in m.cpus[c].held ==> !m.locked[op.l]
    ensures AllEnabled(m, Micros(c, Left(m.cpus[c].pc)))
    ensures var m' := RunAll(m, Micros(c, Left(m.cpus[c].pc)));
            c < |m'.cpus| && m'.cpus[c].pc.Run? && m'.cpus[c].held == After(op, held0)
    decreases Left(m.cpus[c].pc)
  {
    hide Right, MicroStep;
    RightFacts(m);
    if Left(m.cpus[c].pc) > 0 {
      ExchangeFree(m, c, op, held0);
      var m' := MicroStep(m, c);
      assert Apply(m, Micro(c)) == m';
      StepRight(m, Micro(c));
      StepRefines(m, Micro(c));
      OneLess(m, c);
      MicroCalling(m, c, op, held0);
      if m.cpus[c].pc.Xchg? {
        ExchangeTakes(m, c);
      } else if op.Lock? && op.l !in m'.cpus[c].held {
        HeldStays(m, c, op.l);
        MarksAhead(m, c, op.l);
      }
      AloneToTheEnd(m', c, op, held0);
      assert Micros(c, Left(m.cpus[c].pc))[1..] == Micros(c, Left(m'.cpus[c].pc));
    }
  }

  /** With nobody else stepping, a free lock is taken in 12 accesses, and a held one given up in 10. */
  lemma AloneReturns(m: Machine, c: nat, op: Op)
    requires Right(m) && Enabled(m, Call(c, op)) && (op.Lock? ==> !m.locked[op.l])
    ensures var m1, n := Apply(m, Call(c, op)), if op.Lock? then 12 else 10;
            && AllEnabled(m1, Micros(c, n))
            && var m' := RunAll(m1, Micros(c, n));
               c < |m'.cpus| && m'.cpus[c].pc.Run? && m'.cpus[c].held == After(op, m.cpus[c].held)
  {
    StepRight(m, Call(c, op));
    var m1 := Apply(m, Call(c, op));
    assert Left(m1.cpus[c].pc) == if op.Lock? then 12 else 10;
    hide Right;
    AloneToTheEnd(m1, c, op, m.cpus[c].held);
  }
}
