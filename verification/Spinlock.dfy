/**
 Spinlocks and the interrupt flag, as processors interleave them one access at a time.
 */
module Spinlock {
  import opened Locks

  datatype Op = Lock(l: nat) | Unlock(l: nat)

  /** Which call of `pushcli`: the one a lock is taken under, or the one inside `is_holding_spin`. */
  datatype Push = Outer(l: nat) | Inner(op: Op)

  /** Where a processor stands; each constructor names the next access it makes. */
  datatype Pc =
    | Run
    | ReadIF(at: Push)
    | ClearIF(at: Push, oldIF: bool)
    | Enter(at: Push, oldIF: bool)
    | ReadLocked(op: Op)
    | ReadCpu(op: Op, locked: bool)
    | Leave(op: Op, r: bool)
    | Decide(op: Op, r: bool)
    | Xchg(l: nat)
    | SetCpu(l: nat)
    | ClearCpu(l: nat)
    | Release(l: nat)
    | Pop
    | Panicked

  /** A task that is not running: where it was, and its interrupt flag. */
  datatype Context = Context(task: nat, pc: Pc, intr: bool)

  /**
   One processor. `held` are the locks between their exchange and their release, `level` is the
   interrupt flag of whatever runs, outside of any `pushcli`; that is `task`, or a trap it took.
   */
  datatype Cpu = Cpu(
    pc: Pc, intr: bool, count: int, hasIF: bool, held: set<nat>,
    level: bool, task: nat, trapped: bool, saved: seq<Context>)

  datatype Machine = Machine(cpus: seq<Cpu>, locked: seq<bool>, owner: seq<int>)

  datatype Step = Micro(c: nat) | Call(c: nat, op: Op) | Interrupt(c: nat) | Yield(c: nat) | Return(c: nat, k: nat)

  // ---- The code, access by access

  /** `popcli`, then on to `next`. */
  function PopCli(cpu: Cpu, next: Pc): Cpu {
    if cpu.intr || cpu.count - 1 < 0 then cpu.(pc := Panicked)
    else if cpu.count - 1 == 0 && cpu.hasIF then cpu.(count := 0, hasIF := false, intr := true, pc := next)
    else cpu.(count := cpu.count - 1, pc := next)
  }

  /** The bookkeeping of `pushcli`, then on to `next`. */
  function PushCli(cpu: Cpu, oldIF: bool, next: Pc): Cpu {
    if cpu.count == 0 && cpu.hasIF then cpu.(pc := Panicked)
    else if cpu.count == 0 then cpu.(hasIF := oldIF, count := 1, pc := next)
    else cpu.(count := cpu.count + 1, pc := next)
  }

  function AfterPush(at: Push): Pc {
    match at
    case Outer(l) => ReadIF(Inner(Lock(l)))
    case Inner(op) => ReadLocked(op)
  }

  /** The next access of processor `c`; a failed exchange is tried again. */
  function MicroStep(m: Machine, c: nat): Machine
    requires c < |m.cpus| && |m.locked| == |m.owner|
  {
    var cpu := m.cpus[c];
    match cpu.pc
    case Run => m
    case Panicked => m
    case ReadIF(at) => m.(cpus := m.cpus[c := cpu.(pc := ClearIF(at, cpu.intr))])
    case ClearIF(at, oldIF) => m.(cpus := m.cpus[c := cpu.(intr := false, pc := Enter(at, oldIF))])
    case Enter(at, oldIF) => m.(cpus := m.cpus[c := PushCli(cpu, oldIF, AfterPush(at))])
    case ReadLocked(op) => m.(cpus := m.cpus[c := cpu.(pc := ReadCpu(op, op.l < |m.locked| && m.locked[op.l]))])
    case ReadCpu(op, locked) =>
      var r := locked && op.l < |m.owner| && m.owner[op.l] == c;
      m.(cpus := m.cpus[c := cpu.(pc := Leave(op, r))])
    case Leave(op, r) => m.(cpus := m.cpus[c := PopCli(cpu, Decide(op, r))])
    case Decide(op, r) =>
      var next := if r == op.Lock? then Panicked else if op.Lock? then Xchg(op.l) else ClearCpu(op.l);
      m.(cpus := m.cpus[c := cpu.(pc := next)])
    case Xchg(l) =>
      if l < |m.locked| && !m.locked[l]
      then m.(cpus := m.cpus[c := cpu.(held := cpu.held + {l}, pc := SetCpu(l))], locked := m.locked[l := true])
      else m
    case SetCpu(l) =>
      if l < |m.owner| then m.(cpus := m.cpus[c := cpu.(pc := Run)], owner := m.owner[l := c]) else m
    case ClearCpu(l) =>
      if l < |m.owner| then m.(cpus := m.cpus[c := cpu.(pc := Release(l))], owner := m.owner[l := -1]) else m
    case Release(l) =>
      if l < |m.locked|
      then m.(cpus := m.cpus[c := cpu.(held := cpu.held - {l}, pc := Pop)], locked := m.locked[l := false])
      else m
    case Pop => m.(cpus := m.cpus[c := PopCli(cpu, Run)])
  }

  /** The processor runs a task that holds no lock and is in no call. */
  predicate AtOwnPoint(cpu: Cpu) {
    !cpu.trapped && cpu.pc.Run? && cpu.held == {}
  }

  /** Callers take locks they do not hold and release locks they hold; traps run to their end without locks. */
  predicate Enabled(m: Machine, step: Step) {
    && step.c < |m.cpus|
    && var cpu := m.cpus[step.c];
       match step
       case Micro(_) => true
       case Call(_, op) => cpu.pc.Run? && op.l < |m.locked| && (op.l in cpu.held <==> op.Unlock?)
       case Interrupt(_) => cpu.intr
       case Yield(_) => AtOwnPoint(cpu)
       case Return(_, k) => cpu.pc.Run? && cpu.held == {} && cpu.trapped && k < |cpu.saved|
  }

  function Trap(cpu: Cpu): Cpu {
    cpu.(pc := Run, intr := false, level := false, trapped := true,
         saved := cpu.saved + [Context(cpu.task, cpu.pc, cpu.intr)])
  }

  function Resume(cpu: Cpu, k: nat): Cpu
    requires k < |cpu.saved|
  {
    var t := cpu.saved[k];
    cpu.(pc := t.pc, intr := t.intr, level := t.intr, task := t.task, trapped := false,
         saved := cpu.saved[..k] + cpu.saved[k + 1..])
  }

  function Apply(m: Machine, step: Step): Machine
    requires Enabled(m, step) && |m.locked| == |m.owner|
  {
    var cpu := m.cpus[step.c];
    match step
    case Micro(c) => MicroStep(m, c)
    case Call(c, op) => m.(cpus := m.cpus[c := cpu.(pc := if op.Lock? then ReadIF(Outer(op.l)) else ReadIF(Inner(op)))])
    case Interrupt(c) => m.(cpus := m.cpus[c := Trap(cpu)])
    case Yield(c) => m.(cpus := m.cpus[c := Trap(cpu)])
    case Return(c, k) =>
      m.(cpus := m.cpus[c := Resume(cpu, k)])
  }

  // ---- What always holds

  /** How much deeper than the held locks `cli` is nested. */
  function Extra(pc: Pc): nat {
    match pc
    case ReadIF(at) => if at.Inner? && at.op.Lock? then 1 else 0
    case ClearIF(at, _) => if at.Inner? && at.op.Lock? then 1 else 0
    case Enter(at, _) => if at.Inner? && at.op.Lock? then 1 else 0
    case ReadLocked(op) => if op.Lock? then 2 else 1
    case ReadCpu(op, _) => if op.Lock? then 2 else 1
    case Leave(op, _) => if op.Lock? then 2 else 1
    case Decide(op, _) => if op.Lock? then 1 else 0
    case Xchg(_) => 1
    case Pop => 1
    case _ => 0
  }

  /** Locks being taken are not held yet and exist; locks being released are held. */
  predicate Disciplined(pc: Pc, held: set<nat>, n: nat) {
    match pc
    case ReadIF(at) => OnPush(at, held, n)
    case ClearIF(at, _) => OnPush(at, held, n)
    case Enter(at, _) => OnPush(at, held, n)
    case ReadLocked(op) => OnOp(op, held, n)
    case ReadCpu(op, locked) => OnOp(op, held, n) && (op.Unlock? ==> locked)
    case Leave(op, r) => OnOp(op, held, n) && (r <==> op.Unlock?)
    case Decide(op, r) => OnOp(op, held, n) && (r <==> op.Unlock?)
    case Xchg(l) => l < n && l !in held
    case SetCpu(l) => l < n && l in held
    case ClearCpu(l) => l < n && l in held
    case Release(l) => l < n && l in held
    case Panicked => false
    case _ => true
  }

  predicate OnOp(op: Op, held: set<nat>, n: nat) {
    op.l < n && (op.l in held <==> op.Unlock?)
  }

  predicate OnPush(at: Push, held: set<nat>, n: nat) {
    match at
    case Outer(l) => l < n && l !in held
    case Inner(op) => OnOp(op, held, n)
  }

  /** Off while nested; outside, as it was before, except for a moment inside `pushcli`. */
  predicate FlagRight(cpu: Cpu) {
    if cpu.count > 0 then !cpu.intr && cpu.hasIF == cpu.level
    else
      && !cpu.hasIF
      && (if cpu.pc.Enter? then !cpu.intr && cpu.pc.oldIF == cpu.level else cpu.intr == cpu.level)
      && (cpu.pc.ClearIF? ==> cpu.pc.oldIF == cpu.level)
  }

  /** A task that does not run holds nothing and was at most about to turn interrupts off. */
  predicate Resumable(t: Context, n: nat) {
    || t.pc.Run?
    || (t.intr && t.pc.ReadIF? && t.pc.at.Outer? && t.pc.at.l < n)
    || (t.intr && t.pc.ClearIF? && t.pc.at.Outer? && t.pc.at.l < n && t.pc.oldIF)
  }

  ghost predicate CpuRight(cpu: Cpu, n: nat) {
    && cpu.count == |cpu.held| + Extra(cpu.pc) && Disciplined(cpu.pc, cpu.held, n) && FlagRight(cpu)
    && (forall l :: l in cpu.held ==> l < n)
    && (forall k :: 0 <= k < |cpu.saved| ==> Resumable(cpu.saved[k], n))
  }

  /** `owner` names the holder, except just after the exchange and just before the release. */
  predicate Signed(m: Machine, c: nat, l: nat)
    requires c < |m.cpus|
  {
    l in m.cpus[c].held && m.cpus[c].pc != SetCpu(l) && m.cpus[c].pc != Release(l)
  }

  /** Which locks each processor holds. */
  function Holders(m: Machine): (held: seq<set<nat>>)
    ensures |held| == |m.cpus| && forall c :: 0 <= c < |held| ==> held[c] == m.cpus[c].held
  {
    seq(|m.cpus|, c requires 0 <= c < |m.cpus| => m.cpus[c].held)
  }

  /** A lock is marked exactly while one processor holds it. */
  ghost predicate Exclusive(held: seq<set<nat>>, locked: seq<bool>) {
    && (forall c, l {:trigger l in held[c]} :: 0 <= c < |held| && l in held[c] ==> l < |locked| && locked[l])
    && (forall c, d, l :: 0 <= c < |held| && 0 <= d < |held| && l in held[c] && l in held[d] ==> c == d)
    && (forall l :: 0 <= l < |locked| && locked[l] ==> exists c :: 0 <= c < |held| && l in held[c])
  }

  ghost predicate AllSigned(m: Machine) {
    && |m.locked| == |m.owner|
    && (forall c, l :: 0 <= c < |m.cpus| && 0 <= l < |m.owner| ==> (m.owner[l] == c <==> Signed(m, c, l)))
  }

  ghost predicate CpusRight(m: Machine) {
    forall c :: 0 <= c < |m.cpus| ==> CpuRight(m.cpus[c], |m.locked|)
  }

  ghost predicate Right(m: Machine) {
    CpusRight(m) && Exclusive(Holders(m), m.locked) && AllSigned(m)
  }

  // ---- What a step means for the locks

  datatype Effect = Nothing | Acquired(l: nat) | Released(l: nat)

  function EffectOf(m: Machine, step: Step): Effect {
    if !step.Micro? || step.c >= |m.cpus| then Nothing
    else
      match m.cpus[step.c].pc
      case Xchg(l) => if l < |m.locked| && !m.locked[l] then Acquired(l) else Nothing
      case Release(l) => Released(l)
      case _ => Nothing
  }

  /** A free lock taken, or a held lock released, by one processor. */
  ghost predicate Moved(held: seq<set<nat>>, locked: seq<bool>, held': seq<set<nat>>, locked': seq<bool>, c: nat,
                        e: Effect) {
    && c < |held|
    && match e
       case Nothing => held' == held && locked' == locked
       case Acquired(l) =>
         l < |locked| && !locked[l] && held' == held[c := held[c] + {l}] && locked' == locked[l := true]
       case Released(l) =>
         l < |locked| && l in held[c] && held' == held[c := held[c] - {l}] && locked' == locked[l := false]
  }

  /** The machine refines locks that are taken only when free and released only by their holder. */
  lemma StepRefines(m: Machine, step: Step)
    requires Right(m) && Enabled(m, step)
    ensures var m' := Apply(m, step);
            && |m'.cpus| == |m.cpus| && |m'.locked| == |m.locked|
            && (forall d :: 0 <= d < |m.cpus| && d != step.c ==> m'.cpus[d] == m.cpus[d])
            && Moved(Holders(m), m.locked, Holders(m'), m'.locked, step.c, EffectOf(m, step))
  {
    assert CpuRight(m.cpus[step.c], |m.locked|);
    var m', c := Apply(m, step), step.c;
    assert Holders(m') == Holders(m)[c := m'.cpus[c].held];
  }

  /** The processor holding a lock, or -1. */
  ghost function HolderOf(held: seq<set<nat>>, l: nat): (c: int)
    ensures -1 <= c < |held|
    ensures c >= 0 ==> l in held[c]
    ensures c == -1 ==> forall d :: 0 <= d < |held| ==> l !in held[d]
  {
    if d :| 0 <= d < |held| && l in held[d] then d else -1
  }

  /** Seen from outside, every lock passes from holder to holder through being free. */
  lemma StepPasses(m: Machine, step: Step, l: nat)
    requires Right(m) && Enabled(m, step)
    ensures Passed(HolderOf(Holders(m), l), HolderOf(Holders(Apply(m, step)), l), step.c)
  {
    hide Apply, Enabled, CpusRight, AllSigned;
    RightFacts(m);
    StepRefines(m, step);
    var m' := Apply(m, step);
    MovedExclusive(Holders(m), m.locked, Holders(m'), m'.locked, step.c, EffectOf(m, step));
    MovedPasses(Holders(m), m.locked, Holders(m'), m'.locked, step.c, EffectOf(m, step), l);
  }

  lemma MovedPasses(held: seq<set<nat>>, locked: seq<bool>, held': seq<set<nat>>, locked': seq<bool>, c: nat,
                    e: Effect, l: nat)
    requires Exclusive(held, locked) && Exclusive(held', locked') && Moved(held, locked, held', locked', c, e)
    ensures Passed(HolderOf(held, l), HolderOf(held', l), c)
  {
    var h, h' := HolderOf(held, l), HolderOf(held', l);
    match e
    case Nothing =>
    case Acquired(k) =>
      if k == l {
        assert forall d :: 0 <= d < |held| ==> l !in held[d];
        assert l in held'[c];
      } else {
        assert forall d :: 0 <= d < |held| ==> (l in held'[d] <==> l in held[d]);
      }
    case Released(k) =>
      if k == l {
        assert l in held[c];
        assert forall d :: 0 <= d < |held| && d != c ==> l !in held[d];
      } else {
        assert forall d :: 0 <= d < |held| ==> (l in held'[d] <==> l in held[d]);
      }
  }

  lemma MovedExclusive(held: seq<set<nat>>, locked: seq<bool>, held': seq<set<nat>>, locked': seq<bool>, c: nat,
                       e: Effect)
    requires Exclusive(held, locked) && Moved(held, locked, held', locked', c, e)
    ensures Exclusive(held', locked')
  {
    assert e.Nothing? || e.Acquired? || e.Released?;
    forall d, l: nat | 0 <= d < |held'| && l in held'[d]
      ensures l in held[d] || (d == c && e == Acquired(l))
      ensures l < |locked'| && locked'[l]
    {
    }
    forall l | 0 <= l < |locked'| && locked'[l]
      ensures exists d :: 0 <= d < |held'| && l in held'[d]
    {
      if e == Acquired(l) {
        assert l in held'[c];
      } else {
        var d :| 0 <= d < |held| && l in held[d];
        assert l in held'[d];
      }
    }
  }

  // ---- Each processor by itself

  /** What the tests of `is_holding_spin` read is right about the processor itself. */
  lemma TestsRight(m: Machine, c: nat)
    requires Right(m) && c < |m.cpus|
    ensures var cpu := m.cpus[c];
            && CpuRight(cpu, |m.locked|)
            && (cpu.pc.ReadLocked? && cpu.pc.op.Unlock? ==> m.locked[cpu.pc.op.l])
            && (cpu.pc.ReadCpu? ==> (cpu.pc.locked && m.owner[cpu.pc.op.l] == c <==> cpu.pc.op.Unlock?))
  {
    assert CpuRight(m.cpus[c], |m.locked|);
    var cpu := m.cpus[c];
    if cpu.pc.ReadCpu? {
      assert m.owner[cpu.pc.op.l] == c <==> Signed(m, c, cpu.pc.op.l);
    }
  }

  /** `pushcli` and `popcli` never panic. */
  lemma PushPopRight(cpu: Cpu, n: nat)
    requires CpuRight(cpu, n)
    ensures cpu.pc.Enter? ==> CpuRight(PushCli(cpu, cpu.pc.oldIF, AfterPush(cpu.pc.at)), n)
    ensures cpu.pc.Leave? ==> CpuRight(PopCli(cpu, Decide(cpu.pc.op, cpu.pc.r)), n)
    ensures cpu.pc.Pop? ==> CpuRight(PopCli(cpu, Run), n)
  {
  }

  /** Reading words and deciding. */
  lemma ReadingRight(m: Machine, c: nat)
    requires Right(m) && c < |m.cpus|
    requires var pc := m.cpus[c].pc;
             || pc.Run? || pc.Panicked? || pc.ReadIF? || pc.ClearIF? || pc.ReadLocked? || pc.ReadCpu? || pc.Decide?
             || pc.SetCpu? || pc.ClearCpu?
    ensures CpuRight(MicroStep(m, c).cpus[c], |m.locked|)
  {
    hide Right, Exclusive, AllSigned, PushCli, PopCli;
    RightFacts(m);
    TestsRight(m, c);
  }

  /** Taking and giving up the locks themselves. */
  lemma TakenRight(cpu: Cpu, l: nat, n: nat)
    requires CpuRight(cpu, n) && cpu.pc == Xchg(l)
    ensures CpuRight(cpu.(held := cpu.held + {l}, pc := SetCpu(l)), n)
  {
  }

  lemma ReleasedRight(cpu: Cpu, l: nat, n: nat)
    requires CpuRight(cpu, n) && cpu.pc == Release(l)
    ensures CpuRight(cpu.(held := cpu.held - {l}, pc := Pop), n)
  {
    assert l in cpu.held && |cpu.held - {l}| == |cpu.held| - 1;
  }

  lemma MicroCpuRight(m: Machine, c: nat)
    requires Right(m) && c < |m.cpus|
    ensures CpuRight(MicroStep(m, c).cpus[c], |m.locked|)
  {
    hide Right, PushCli, PopCli, CpuRight;
    RightFacts(m);
    TestsRight(m, c);
    var pc := m.cpus[c].pc;
    if pc.Enter? || pc.Leave? || pc.Pop? {
      PushPopRight(m.cpus[c], |m.locked|);
    } else if pc.Xchg? {
      TakenRight(m.cpus[c], pc.l, |m.locked|);
    } else if pc.Release? {
      ReleasedRight(m.cpus[c], pc.l, |m.locked|);
    } else {
      ReadingRight(m, c);
    }
  }

  lemma RightFacts(m: Machine)
    requires Right(m)
    ensures |m.locked| == |m.owner|
  {
  }

  lemma StepCpusRight(m: Machine, step: Step)
    requires Right(m) && Enabled(m, step)
    ensures CpusRight(Apply(m, step))
  {
    hide Right, Exclusive, AllSigned, CpuRight, MicroStep;
    RightFacts(m);
    StepRefines(m, step);
    RightCpus(m);
    if step.Micro? {
      MicroCpuRight(m, step.c);
    } else {
      OtherCpuRight(m, step);
    }
  }

  lemma RightCpus(m: Machine)
    requires Right(m)
    ensures CpusRight(m)
  {
  }

  lemma OtherCpuRight(m: Machine, step: Step)
    requires Right(m) && Enabled(m, step) && !step.Micro?
    ensures CpuRight(Apply(m, step).cpus[step.c], |m.locked|)
  {
    assert CpuRight(m.cpus[step.c], |m.locked|);
  }

  /** Only the writes of the name itself change it. */
  lemma OwnerAfter(m: Machine, step: Step)
    requires |m.locked| == |m.owner| && Enabled(m, step)
    ensures var m', pc := Apply(m, step), m.cpus[step.c].pc;
            && |m'.owner| == |m.owner| && |m'.locked| == |m.locked|
            && m'.owner == if step.Micro? && pc.SetCpu? && pc.l < |m.owner| then m.owner[pc.l := step.c]
                           else if step.Micro? && pc.ClearCpu? && pc.l < |m.owner| then m.owner[pc.l := -1]
                           else m.owner
  {
  }

  /** The accesses that read or write the words of a lock. */
  predicate OnLock(pc: Pc) {
    pc.Xchg? || pc.SetCpu? || pc.ClearCpu? || pc.Release?
  }

  /** No other access changes what the processor holds, or brings it to a point next to such a write. */
  lemma QuietStep(m: Machine, c: nat)
    requires c < |m.cpus| && |m.locked| == |m.owner| && !OnLock(m.cpus[c].pc)
    ensures var cpu, m' := m.cpus[c], MicroStep(m, c);
            && m'.cpus == m.cpus[c := m'.cpus[c]] && m'.cpus[c].held == cpu.held
            && !m'.cpus[c].pc.SetCpu? && !m'.cpus[c].pc.Release?
  {
    hide PushCli, PopCli, AfterPush;
    var cpu := m.cpus[c];
    match cpu.pc
    case Enter(at, oldIF) => PushKeepsHeld(cpu, oldIF, at);
    case Leave(op, r) => PopKeepsHeld(cpu, Decide(op, r));
    case Pop => PopKeepsHeld(cpu, Run);
    case _ =>
  }

  lemma PushKeepsHeld(cpu: Cpu, oldIF: bool, at: Push)
    ensures var cpu' := PushCli(cpu, oldIF, AfterPush(at));
            cpu'.held == cpu.held && !cpu'.pc.SetCpu? && !cpu'.pc.Release?
  {
  }

  lemma PopKeepsHeld(cpu: Cpu, next: Pc)
    requires !next.SetCpu? && !next.Release?
    ensures PopCli(cpu, next).held == cpu.held && !PopCli(cpu, next).pc.SetCpu? && !PopCli(cpu, next).pc.Release?
  {
  }

  /** And the same writes change whether the processor has signed a lock. */
  lemma MicroSigned(m: Machine, c: nat, l: nat)
    requires c < |m.cpus| && |m.locked| == |m.owner| && CpuRight(m.cpus[c], |m.locked|) && l < |m.locked|
    ensures var m' := MicroStep(m, c);
            && |m'.cpus| == |m.cpus|
            && Signed(m', c, l) == if m.cpus[c].pc == SetCpu(l) then true
                                   else if m.cpus[c].pc == ClearCpu(l) then false
                                   else Signed(m, c, l)
  {
    hide FlagRight, Extra;
    if !OnLock(m.cpus[c].pc) {
      QuietStep(m, c);
      hide MicroStep;
    }
  }

  lemma SignedAfter(m: Machine, step: Step, l: nat)
    requires Right(m) && Enabled(m, step) && l < |m.locked|
    ensures var m', c := Apply(m, step), step.c;
            && c < |m'.cpus|
            && Signed(m', c, l) == if step.Micro? && m.cpus[c].pc == SetCpu(l) then true
                                   else if step.Micro? && m.cpus[c].pc == ClearCpu(l) then false
                                   else Signed(m, c, l)
  {
    assert CpuRight(m.cpus[step.c], |m.locked|);
    RightFacts(m);
    if step.Micro? {
      hide Right, CpuRight, MicroStep, Signed;
      MicroSigned(m, step.c, l);
    } else {
      hide Right, FlagRight, Extra, MicroStep;
    }
  }

  /** The name on a lock stays right. */
  lemma StepSigned(m: Machine, step: Step)
    requires Right(m) && Enabled(m, step)
    ensures AllSigned(Apply(m, step))
  {
    hide Right, Apply, Enabled;
    RightFacts(m);
    StepRefines(m, step);
    OwnerAfter(m, step);
    RightSigned(m);
    var m', c := Apply(m, step), step.c;
    forall d, l | 0 <= d < |m.cpus| && 0 <= l < |m.owner|
      ensures m'.owner[l] == d <==> Signed(m', d, l)
    {
      SignedAfter(m, step, l);
      assert m.owner[l] == d <==> Signed(m, d, l);
      if d != c {
        NotBoth(m, step, d, l);
      }
    }
  }

  lemma RightSigned(m: Machine)
    requires Right(m)
    ensures AllSigned(m)
  {
  }

  /** While one processor writes a name, no other has signed. */
  lemma NotBoth(m: Machine, step: Step, d: nat, l: nat)
    requires Right(m) && Enabled(m, step) && d < |m.cpus| && d != step.c && l < |m.locked|
    ensures m.cpus[step.c].pc == SetCpu(l) || m.cpus[step.c].pc == ClearCpu(l) ==> !Signed(m, d, l)
  {
    assert CpuRight(m.cpus[step.c], |m.locked|);
    assert l in Holders(m)[d] ==> l in m.cpus[d].held;
    assert l in m.cpus[step.c].held ==> l in Holders(m)[step.c];
  }

  /** Every step of every processor keeps everything. */
  lemma StepRight(m: Machine, step: Step)
    requires Right(m) && Enabled(m, step)
    ensures Right(Apply(m, step))
  {
    hide CpusRight, Exclusive, AllSigned, Apply, Enabled, Moved;
    RightFacts(m);
    StepCpusRight(m, step);
    StepRefines(m, step);
    var m' := Apply(m, step);
    MovedExclusive(Holders(m), m.locked, Holders(m'), m'.locked, step.c, EffectOf(m, step));
    StepSigned(m, step);
  }

  // ---- Over whole runs

  /** Nothing held, nothing nested, every task at a point of its own. */
  ghost predicate Initial(m: Machine) {
    && |m.locked| == |m.owner|
    && (forall l :: 0 <= l < |m.locked| ==> !m.locked[l] && m.owner[l] == -1)
    && (forall c :: 0 <= c < |m.cpus| ==>
          var cpu := m.cpus[c];
          && cpu.pc.Run? && cpu.count == 0 && !cpu.hasIF && cpu.held == {} && cpu.intr == cpu.level
          && Tagged(cpu)
          && forall k :: 0 <= k < |cpu.saved| ==> cpu.saved[k].pc.Run?)
  }

  lemma InitialRight(m: Machine)
    requires Initial(m)
    ensures Right(m) && AllTagged(m)
  {
  }

  ghost predicate AllEnabled(m: Machine, steps: seq<Step>)
    decreases |steps|
  {
    steps == [] ||
    (|m.locked| == |m.owner| && Enabled(m, steps[0]) && AllEnabled(Apply(m, steps[0]), steps[1..]))
  }

  function RunAll(m: Machine, steps: seq<Step>): Machine
    requires AllEnabled(m, steps)
    decreases |steps|
  {
    if steps == [] then m else RunAll(Apply(m, steps[0]), steps[1..])
  }

  lemma {:induction false} RunRight(m: Machine, steps: seq<Step>)
    requires Right(m) && AllEnabled(m, steps)
    ensures Right(RunAll(m, steps))
    decreases |steps|
  {
    hide Right, Enabled, Apply;
    if steps != [] {
      StepRight(m, steps[0]);
      RunRight(Apply(m, steps[0]), steps[1..]);
    }
  }

  /**
   Over every interleaving: no lock has two holders, none of the panics is reached, interrupts
   are off while `cli` is nested and are what they were when it is not.
   */
  lemma RunSafe(m: Machine, steps: seq<Step>, c: nat, d: nat, l: nat)
    requires Initial(m) && AllEnabled(m, steps)
    ensures var cpus := RunAll(m, steps).cpus;
            && (c < |cpus| && d < |cpus| && l in cpus[c].held && l in cpus[d].held ==> c == d)
            && (c < |cpus| ==>
                  && !cpus[c].pc.Panicked?
                  && (cpus[c].count > 0 ==> !cpus[c].intr)
                  && (l in cpus[c].held ==> cpus[c].count > 0)
                  && (cpus[c].pc.Run? && cpus[c].held == {} ==> cpus[c].count == 0 && cpus[c].intr == cpus[c].level))
  {
    InitialRight(m);
    RunRight(m, steps);
    var m' := RunAll(m, steps);
    assert c < |m'.cpus| ==> Holders(m')[c] == m'.cpus[c].held;
    assert d < |m'.cpus| ==> Holders(m')[d] == m'.cpus[d].held;
    if c < |m'.cpus| {
      assert CpuRight(m'.cpus[c], |m'.locked|);
      if l in m'.cpus[c].held {
        assert |m'.cpus[c].held| > 0;
      }
    }
  }

  // ---- The interrupt flag of a task, across traps

  /** Traps run with interrupts off, and every task is in one place. */
  ghost predicate Tagged(cpu: Cpu) {
    && (cpu.trapped ==> !cpu.level)
    && (forall k :: 0 <= k < |cpu.saved| && !cpu.trapped ==> cpu.saved[k].task != cpu.task)
    && (forall j, k :: 0 <= j < k < |cpu.saved| ==> cpu.saved[j].task != cpu.saved[k].task)
  }

  ghost predicate AllTagged(m: Machine) {
    forall c :: 0 <= c < |m.cpus| ==> Tagged(m.cpus[c])
  }

  /** The flag of a task outside of any `pushcli`, whether it runs or waits. */
  ghost predicate HasFlag(cpu: Cpu, task: nat, flag: bool) {
    || (!cpu.trapped && cpu.task == task && cpu.level == flag)
    || (exists k :: 0 <= k < |cpu.saved| && cpu.saved[k].task == task && cpu.saved[k].intr == flag)
  }

  /** A processor that can be trapped has its task's flag in its flag register. */
  lemma TrapSaves(cpu: Cpu, n: nat, task: nat, flag: bool)
    requires CpuRight(cpu, n) && Tagged(cpu) && (cpu.intr || AtOwnPoint(cpu))
    ensures Tagged(Trap(cpu)) && (HasFlag(cpu, task, flag) ==> HasFlag(Trap(cpu), task, flag))
  {
    assert cpu.intr == cpu.level && !cpu.trapped;
    var saved := Trap(cpu).saved;
    assert saved[|cpu.saved|] == Context(cpu.task, cpu.pc, cpu.intr);
    assert forall k :: 0 <= k < |cpu.saved| ==> saved[k] == cpu.saved[k];
  }

  lemma ResumeRestores(cpu: Cpu, k: nat, task: nat, flag: bool)
    requires Tagged(cpu) && cpu.trapped && k < |cpu.saved|
    ensures Tagged(Resume(cpu, k)) && (HasFlag(cpu, task, flag) ==> HasFlag(Resume(cpu, k), task, flag))
  {
    var saved := Resume(cpu, k).saved;
    assert forall j :: 0 <= j < |saved| ==> saved[j] == cpu.saved[if j < k then j else j + 1];
    if HasFlag(cpu, task, flag) {
      var i :| 0 <= i < |cpu.saved| && cpu.saved[i].task == task && cpu.saved[i].intr == flag;
      if i != k {
        assert saved[if i < k then i else i - 1] == cpu.saved[i];
      }
    }
  }

  lemma MicroKeepsTask(m: Machine, c: nat)
    requires c < |m.cpus| && |m.locked| == |m.owner|
    ensures |MicroStep(m, c).cpus| == |m.cpus|
    ensures forall d :: 0 <= d < |m.cpus| && d != c ==> MicroStep(m, c).cpus[d] == m.cpus[d]
    ensures SameTask(m.cpus[c], MicroStep(m, c).cpus[c])
  {
    hide PopCli, PushCli, AfterPush;
    var cpu := m.cpus[c];
    match cpu.pc
    case Enter(at, oldIF) => PushKeepsTask(cpu, oldIF, AfterPush(at));
    case Leave(op, r) => PopKeepsTask(cpu, Decide(op, r));
    case Pop => PopKeepsTask(cpu, Run);
    case _ =>
  }

  lemma PushKeepsTask(cpu: Cpu, oldIF: bool, next: Pc)
    ensures SameTask(cpu, PushCli(cpu, oldIF, next))
  {
  }

  lemma PopKeepsTask(cpu: Cpu, next: Pc)
    ensures SameTask(cpu, PopCli(cpu, next))
  {
  }

  predicate SameTask(cpu: Cpu, cpu': Cpu) {
    cpu'.level == cpu.level && cpu'.task == cpu.task && cpu'.trapped == cpu.trapped && cpu'.saved == cpu.saved
  }

  lemma OwnStepKeeps(m: Machine, step: Step, c: nat)
    requires Right(m) && Enabled(m, step) && c < |m.cpus| && (step.c != c || step.Micro? || step.Call?)
    ensures |Apply(m, step).cpus| == |m.cpus| && SameTask(m.cpus[c], Apply(m, step).cpus[c])
  {
    hide Right, MicroStep;
    RightFacts(m);
    if step.Micro? {
      MicroKeepsTask(m, step.c);
    }
  }

  /** No step of any processor changes a task's flag. */
  lemma StepFlag(m: Machine, step: Step, c: nat, task: nat, flag: bool)
    requires Right(m) && AllTagged(m) && Enabled(m, step) && c < |m.cpus|
    ensures |Apply(m, step).cpus| == |m.cpus|
    ensures var cpu' := Apply(m, step).cpus[c];
            Tagged(cpu') && (HasFlag(m.cpus[c], task, flag) ==> HasFlag(cpu', task, flag))
  {
    assert CpuRight(m.cpus[c], |m.locked|) && Tagged(m.cpus[c]);
    hide Right, CpuRight, MicroStep;
    RightFacts(m);
    if step.c == c && (step.Interrupt? || step.Yield?) {
      TrapSaves(m.cpus[c], |m.locked|, task, flag);
    } else if step.c == c && step.Return? {
      ResumeRestores(m.cpus[c], step.k, task, flag);
    } else {
      OwnStepKeeps(m, step, c);
    }
  }

  lemma StepTagged(m: Machine, step: Step)
    requires Right(m) && AllTagged(m) && Enabled(m, step)
    ensures AllTagged(Apply(m, step))
  {
    hide Right, Enabled, Apply, Tagged;
    RightFacts(m);
    StepRefines(m, step);
    var m' := Apply(m, step);
    forall c | 0 <= c < |m'.cpus|
      ensures Tagged(m'.cpus[c])
    {
      StepFlag(m, step, c, 0, false);
    }
  }

  lemma {:induction false} RunFlag(m: Machine, steps: seq<Step>, c: nat, task: nat, flag: bool)
    requires Right(m) && AllTagged(m) && AllEnabled(m, steps) && c < |m.cpus| && HasFlag(m.cpus[c], task, flag)
    ensures var m' := RunAll(m, steps);
            && |m'.cpus| == |m.cpus| && Right(m') && AllTagged(m')
            && HasFlag(m'.cpus[c], task, flag)
    decreases |steps|
  {
    hide Right, Enabled, Apply, AllTagged, HasFlag;
    if steps != [] {
      StepRight(m, steps[0]);
      StepTagged(m, steps[0]);
      StepFlag(m, steps[0], c, task, flag);
      RunFlag(Apply(m, steps[0]), steps[1..], c, task, flag);
    }
  }

  /**
   Between two points where a task holds no lock, however often it was interrupted, gave up the
   processor and was resumed in between, its interrupt flag comes back.
   */
  lemma FlagRestored(m: Machine, steps: seq<Step>, c: nat)
    requires Right(m) && AllTagged(m) && AllEnabled(m, steps) && c < |m.cpus| && AtOwnPoint(m.cpus[c])
    ensures var cpus := RunAll(m, steps).cpus;
            && c < |cpus|
            && (AtOwnPoint(cpus[c]) && cpus[c].task == m.cpus[c].task ==> cpus[c].intr == m.cpus[c].intr)
  {
    RunFlag(m, steps, c, m.cpus[c].task, m.cpus[c].level);
    var m' := RunAll(m, steps);
    assert CpuRight(m.cpus[c], |m.locked|) && CpuRight(m'.cpus[c], |m'.locked|);
    assert Tagged(m'.cpus[c]);
  }
}
