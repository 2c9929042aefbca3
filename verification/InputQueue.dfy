/**
 The input event queue: a ring under a spinlock, guarded by a counting semaphore that is itself
 a number under a spinlock, with any number of threads pushing and popping step by step. A lock
 is a holder that passes as `Spinlock.StepPasses` shows the locks of the machine do.
 */
module InputQueue {
  import opened Basics
  import opened Locks
  import opened Sums

  const NEVENTS: nat := 128

  /** Where a thread stands; each constructor names the next thing it does. */
  datatype Pc<E> =
    | Idle
    // push_event
    | PushLock(ev: E)
    | Store(ev: E)
    | BumpRear(ev: E)
    | CheckFull
    | PushUnlock
    // sem_signal
    | SigLock
    | SigRead
    | SigWrite(t: int)
    | SigUnlock
    // sem_wait
    | WaitLock
    | Test
    | WaitRead
    | WaitWrite(t: int)
    | WaitUnlock
    | Retry
    // pop_event
    | PopLock
    | CheckEmpty
    | TakeFront
    | BumpFront(idx: int)
    | Load(idx: int)
    | PopUnlock(ev: E)

  /**
   `initial` is what the semaphore was started with; `pushed` and `popped` are the events that
   have entered and left so far, in order.
   */
  datatype Queue<E> = Queue(
    threads: seq<Pc<E>>,
    ring: seq<E>, front: int, rear: int, ringHolder: int,
    initial: int, value: int, semHolder: int,
    halted: Halt,
    pushed: seq<E>, popped: seq<E>, signals: nat, waits: nat)

  /** The two panics of the queue stop the machine. */
  datatype Halt = Running | QueueFull | QueueEmpty

  /** What a thread that is idle does next. */
  datatype Choice<E> = Push(ev: E) | Pop

  function At<E>(q: Queue<E>, c: nat, pc: Pc<E>): Queue<E>
    requires c < |q.threads|
  {
    q.(threads := q.threads[c := pc])
  }

  /** The next step of thread `c`; a lock that is taken is tried again. */
  function Step<E>(q: Queue<E>, c: nat, choice: Choice<E>): (r: Queue<E>)
    requires c < |q.threads| && |q.ring| == NEVENTS
    ensures |r.ring| == NEVENTS && |r.threads| == |q.threads|
  {
    if !q.halted.Running? then q else
    match q.threads[c]
    case Idle => At(q, c, if choice.Push? then PushLock(choice.ev) else WaitLock)
    case PushLock(ev) => if q.ringHolder == -1 then At(q, c, Store(ev)).(ringHolder := c) else q
    case Store(ev) =>
      if 0 <= q.rear < NEVENTS then At(q, c, BumpRear(ev)).(ring := q.ring[q.rear := ev]) else q
    case BumpRear(ev) => At(q, c, CheckFull).(rear := (q.rear + 1) % NEVENTS, pushed := q.pushed + [ev])
    case CheckFull => if q.rear == q.front then q.(halted := QueueFull) else At(q, c, PushUnlock)
    case PushUnlock => At(q, c, SigLock).(ringHolder := -1)
    case SigLock => if q.semHolder == -1 then At(q, c, SigRead).(semHolder := c) else q
    case SigRead => At(q, c, SigWrite(q.value))
    case SigWrite(t) => At(q, c, SigUnlock).(value := t + 1, signals := q.signals + 1)
    case SigUnlock => At(q, c, Idle).(semHolder := -1)
    case WaitLock => if q.semHolder == -1 then At(q, c, Test).(semHolder := c) else q
    case Test => At(q, c, if q.value > 0 then WaitRead else Retry)
    case WaitRead => At(q, c, WaitWrite(q.value))
    case WaitWrite(t) => At(q, c, WaitUnlock).(value := t - 1, waits := q.waits + 1)
    case WaitUnlock => At(q, c, PopLock).(semHolder := -1)
    case Retry => At(q, c, WaitLock).(semHolder := -1)
    case PopLock => if q.ringHolder == -1 then At(q, c, CheckEmpty).(ringHolder := c) else q
    case CheckEmpty => if q.rear == q.front then q.(halted := QueueEmpty) else At(q, c, TakeFront)
    case TakeFront => At(q, c, BumpFront(q.front))
    case BumpFront(idx) => At(q, c, Load(idx)).(front := (q.front + 1) % NEVENTS)
    case Load(idx) =>
      if 0 <= idx < NEVENTS then At(q, c, PopUnlock(q.ring[idx])).(popped := q.popped + [q.ring[idx]]) else q
    case PopUnlock(ev) => At(q, c, Idle).(ringHolder := -1)
  }

  // ---- What always holds

  predicate InRing<E>(pc: Pc<E>) {
    pc.Store? || pc.BumpRear? || pc.CheckFull? || pc.PushUnlock? ||
    pc.CheckEmpty? || pc.TakeFront? || pc.BumpFront? || pc.Load? || pc.PopUnlock?
  }

  predicate InSem<E>(pc: Pc<E>) {
    pc.SigRead? || pc.SigWrite? || pc.SigUnlock? ||
    pc.Test? || pc.WaitRead? || pc.WaitWrite? || pc.WaitUnlock? || pc.Retry?
  }

  /** An event that is in the ring but not in the semaphore: not signalled yet, or claimed already. */
  function Owed<E>(pc: Pc<E>): nat {
    if pc.CheckFull? || pc.PushUnlock? || pc.SigLock? || pc.SigRead? || pc.SigWrite? ||
       pc.WaitUnlock? || pc.PopLock? || pc.CheckEmpty? || pc.TakeFront? || pc.BumpFront? || pc.Load?
    then 1 else 0
  }

  function Owing<E>(threads: seq<Pc<E>>): (r: seq<nat>)
    ensures |r| == |threads| && forall c :: 0 <= c < |threads| ==> r[c] == Owed(threads[c])
  {
    seq(|threads|, c requires 0 <= c < |threads| => Owed(threads[c]))
  }

  /** The thread holding the ring lock, if any. */
  function Ringer<E>(q: Queue<E>): Pc<E> {
    if 0 <= q.ringHolder < |q.threads| then q.threads[q.ringHolder] else Idle
  }

  /** Each lock has at most the holder it names. */
  ghost predicate Guarded<E>(q: Queue<E>) {
    && -1 <= q.ringHolder < |q.threads| && -1 <= q.semHolder < |q.threads|
    && (forall c :: 0 <= c < |q.threads| ==> (InRing(q.threads[c]) <==> q.ringHolder == c))
    && (forall c :: 0 <= c < |q.threads| ==> (InSem(q.threads[c]) <==> q.semHolder == c))
  }

  /** What a thread remembers of the semaphore's value is its value. */
  ghost predicate Counts<E>(q: Queue<E>) {
    && q.value >= Min(q.initial, 0) && q.value == q.initial + q.signals - q.waits
    && (forall c :: 0 <= c < |q.threads| ==>
          var pc := q.threads[c];
          && (pc.SigWrite? ==> pc.t == q.value)
          && (pc.WaitRead? ==> q.value > 0)
          && (pc.WaitWrite? ==> pc.t == q.value > 0))
  }

  /** How many events have been taken out: one more than `popped` while one is being loaded. */
  function Taken<E>(q: Queue<E>): nat {
    |q.popped| + if Ringer(q).Load? then 1 else 0
  }

  /** The ring holds what was pushed and not yet popped, oldest at the front. */
  ghost predicate Stored<E>(q: Queue<E>) {
    && |q.ring| == NEVENTS
    && |q.popped| <= Taken(q) <= |q.pushed| <= |q.popped| + NEVENTS
    && (!Ringer(q).CheckFull? && q.halted.Running? ==> |q.pushed| < |q.popped| + NEVENTS)
    && q.front == Taken(q) % NEVENTS && q.rear == |q.pushed| % NEVENTS
    && (forall k :: |q.popped| <= k < |q.pushed| ==> q.ring[k % NEVENTS] == q.pushed[k])
    && (Ringer(q).BumpRear? ==> q.ring[q.rear] == Ringer(q).ev)
    && (Ringer(q).BumpFront? ==> Ringer(q).idx == q.front && |q.popped| < |q.pushed|)
    && (Ringer(q).TakeFront? ==> |q.popped| < |q.pushed|)
    && (Ringer(q).Load? ==> Ringer(q).idx == |q.popped| % NEVENTS)
  }

  /** First in, first out. */
  ghost predicate Fifo<E>(q: Queue<E>) {
    q.popped <= q.pushed
  }

  /** Every event in the ring is in the semaphore above its start, on its way there, or claimed. */
  ghost predicate Balanced<E>(q: Queue<E>) {
    |q.pushed| - |q.popped| == q.value - q.initial + Sum(Owing(q.threads))
  }

  ghost predicate Right<E>(q: Queue<E>) {
    Guarded(q) && Counts(q) && Stored(q) && Fifo(q) && Balanced(q) && (q.initial <= 0 ==> !q.halted.QueueEmpty?)
  }

  // ---- Each step keeps it

  lemma StepMoves<E>(q: Queue<E>, c: nat, choice: Choice<E>)
    requires Guarded(q) && c < |q.threads| && |q.ring| == NEVENTS
    ensures var q' := Step(q, c, choice);
            && |q'.threads| == |q.threads| && q'.threads == q.threads[c := q'.threads[c]]
            && Passed(q.ringHolder, q'.ringHolder, c) && (InRing(q'.threads[c]) <==> q'.ringHolder == c)
            && Passed(q.semHolder, q'.semHolder, c) && (InSem(q'.threads[c]) <==> q'.semHolder == c)
  {
    assert InRing(q.threads[c]) <==> q.ringHolder == c;
    assert InSem(q.threads[c]) <==> q.semHolder == c;
    hide Guarded;
  }

  lemma StepGuarded<E>(q: Queue<E>, c: nat, choice: Choice<E>)
    requires Guarded(q) && c < |q.threads| && |q.ring| == NEVENTS
    ensures Guarded(Step(q, c, choice))
  {
    hide Step, InRing, InSem;
    StepMoves(q, c, choice);
  }

  lemma StepOutsideSem<E>(q: Queue<E>, c: nat, choice: Choice<E>)
    requires c < |q.threads| && |q.ring| == NEVENTS && !InSem(q.threads[c])
    ensures var q' := Step(q, c, choice);
            && q'.value == q.value && q'.initial == q.initial && q'.signals == q.signals && q'.waits == q.waits
            && !q'.threads[c].SigWrite? && !q'.threads[c].WaitRead? && !q'.threads[c].WaitWrite?
  {
    var pc := q.threads[c];
    if !q.halted.Running? {
    } else if InRing(pc) {
    } else {
      assert pc.Idle? || pc.PushLock? || pc.SigLock? || pc.WaitLock? || pc.PopLock?;
    }
  }

  lemma StepInsideSem<E>(q: Queue<E>, c: nat, choice: Choice<E>)
    requires Counts(q) && c < |q.threads| && |q.ring| == NEVENTS && InSem(q.threads[c])
    ensures var q' := Step(q, c, choice);
            && q'.value >= Min(q'.initial, 0) && q'.value == q'.initial + q'.signals - q'.waits
            && (q'.threads[c].SigWrite? ==> q'.threads[c].t == q'.value)
            && (q'.threads[c].WaitRead? ==> q'.value > 0)
            && (q'.threads[c].WaitWrite? ==> q'.threads[c].t == q'.value > 0)
  {
  }

  /** What a step does to the semaphore's value. */
  lemma StepValue<E>(q: Queue<E>, c: nat, choice: Choice<E>)
    requires Counts(q) && c < |q.threads| && |q.ring| == NEVENTS
    ensures var q' := Step(q, c, choice);
            && q'.value >= Min(q'.initial, 0) && q'.value == q'.initial + q'.signals - q'.waits
            && (q'.value == q.value || InSem(q.threads[c]))
            && (q'.threads[c].SigWrite? ==> q'.threads[c].t == q'.value)
            && (q'.threads[c].WaitRead? ==> q'.value > 0)
            && (q'.threads[c].WaitWrite? ==> q'.threads[c].t == q'.value > 0)
  {
    hide Step;
    if InSem(q.threads[c]) {
      StepInsideSem(q, c, choice);
    } else {
      StepOutsideSem(q, c, choice);
    }
  }

  lemma StepCounts<E>(q: Queue<E>, c: nat, choice: Choice<E>)
    requires Guarded(q) && Counts(q) && c < |q.threads| && |q.ring| == NEVENTS
    ensures Counts(Step(q, c, choice))
  {
    hide Step;
    var q' := Step(q, c, choice);
    StepMoves(q, c, choice);
    StepValue(q, c, choice);
    assert InSem(q.threads[c]) ==> forall d :: 0 <= d < |q.threads| && d != c ==> !InSem(q.threads[d]);
  }

  lemma OtherSlot(a: nat, b: nat)
    requires a < b < a + NEVENTS
    ensures a % NEVENTS != b % NEVENTS
  {
  }

  lemma NextSlot(a: nat)
    ensures (a % NEVENTS + 1) % NEVENTS == (a + 1) % NEVENTS
  {
  }

  /** Storing an event overwrites none that is still to be popped. */
  lemma StoreKeeps<E>(q: Queue<E>, ev: E)
    requires Stored(q) && |q.pushed| < |q.popped| + NEVENTS
    ensures forall k :: |q.popped| <= k < |q.pushed| ==> q.ring[q.rear := ev][k % NEVENTS] == q.pushed[k]
  {
    forall k | |q.popped| <= k < |q.pushed|
      ensures q.ring[q.rear := ev][k % NEVENTS] == q.pushed[k]
    {
      OtherSlot(k, |q.pushed|);
    }
  }

  /** A step of a thread outside the ring lock leaves the ring alone. */
  lemma RingAlone<E>(q: Queue<E>, c: nat, choice: Choice<E>)
    requires Guarded(q) && c < |q.threads| && |q.ring| == NEVENTS && !InRing(q.threads[c]) && !q.threads[c].PushLock?
    requires !q.threads[c].PopLock?
    ensures var q' := Step(q, c, choice);
            && q'.ring == q.ring && q'.front == q.front && q'.rear == q.rear
            && q'.pushed == q.pushed && q'.popped == q.popped
            && q'.ringHolder == q.ringHolder && Ringer(q') == Ringer(q) && q'.halted == q.halted
  {
  }

  /** Storing at the rear, and moving the rear on. */
  lemma StoreStored<E>(q: Queue<E>, c: nat, choice: Choice<E>)
    requires Guarded(q) && Stored(q) && c < |q.threads| && q.halted.Running? && q.threads[c].Store?
    ensures Stored(Step(q, c, choice))
  {
    assert Ringer(q) == q.threads[c];
    hide Guarded;
    StoreKeeps(q, q.threads[c].ev);
  }

  lemma BumpRearStored<E>(q: Queue<E>, c: nat, choice: Choice<E>)
    requires Guarded(q) && Stored(q) && c < |q.threads| && q.halted.Running? && q.threads[c].BumpRear?
    ensures Stored(Step(q, c, choice))
  {
    assert Ringer(q) == q.threads[c];
    hide Guarded;
    NextSlot(|q.pushed|);
  }

  /** Pushing keeps the ring. */
  lemma PushStored<E>(q: Queue<E>, c: nat, choice: Choice<E>)
    requires Guarded(q) && Stored(q) && c < |q.threads|
    requires var pc := q.threads[c]; pc.PushLock? || pc.Store? || pc.BumpRear? || pc.CheckFull? || pc.PushUnlock?
    ensures Stored(Step(q, c, choice))
  {
    var pc := q.threads[c];
    if !q.halted.Running? {
    } else if pc.Store? {
      StoreStored(q, c, choice);
    } else if pc.BumpRear? {
      BumpRearStored(q, c, choice);
    } else {
      assert InRing(pc) ==> Ringer(q) == pc;
      hide Guarded;
    }
  }

  /** Popping keeps the ring. */
  lemma PopStored<E>(q: Queue<E>, c: nat, choice: Choice<E>)
    requires Guarded(q) && Stored(q) && c < |q.threads|
    requires var pc := q.threads[c];
             pc.PopLock? || pc.CheckEmpty? || pc.TakeFront? || pc.BumpFront? || pc.Load? || pc.PopUnlock?
    ensures Stored(Step(q, c, choice))
  {
    var pc, q' := q.threads[c], Step(q, c, choice);
    assert InRing(pc) ==> Ringer(q) == pc;
    NextSlot(|q.popped|);
  }

  /** Inside the ring lock the thread is the one the ring's invariant speaks of. */
  lemma StepStored<E>(q: Queue<E>, c: nat, choice: Choice<E>)
    requires Guarded(q) && Stored(q) && c < |q.threads|
    ensures Stored(Step(q, c, choice))
  {
    hide Guarded, Step;
    var pc := q.threads[c];
    if pc.PushLock? || pc.Store? || pc.BumpRear? || pc.CheckFull? || pc.PushUnlock? {
      PushStored(q, c, choice);
    } else if pc.PopLock? || pc.CheckEmpty? || pc.TakeFront? || pc.BumpFront? || pc.Load? || pc.PopUnlock? {
      PopStored(q, c, choice);
    } else {
      RingAlone(q, c, choice);
    }
  }

  lemma StepFifo<E>(q: Queue<E>, c: nat, choice: Choice<E>)
    requires Right(q) && c < |q.threads|
    ensures Fifo(Step(q, c, choice))
  {
    hide Balanced, Counts;
    if q.threads[c].Load? {
      assert Ringer(q) == q.threads[c];
    }
  }

  /** What one thread's step does to the balance. */
  lemma StepOwed<E>(q: Queue<E>, c: nat, choice: Choice<E>)
    requires Counts(q) && c < |q.threads| && |q.ring| == NEVENTS
    requires q.threads[c].Load? ==> 0 <= q.threads[c].idx < NEVENTS
    ensures var q' := Step(q, c, choice);
            && q'.initial == q.initial
            && |q'.pushed| - |q'.popped| - q'.value - Owed(q'.threads[c])
               == |q.pushed| - |q.popped| - q.value - Owed(q.threads[c])
  {
    var pc := q.threads[c];
    if !q.halted.Running? {
    } else if InRing(pc) {
    } else if InSem(pc) {
    } else {
      assert pc.Idle? || pc.PushLock? || pc.SigLock? || pc.WaitLock? || pc.PopLock?;
    }
  }

  lemma StepBalanced<E>(q: Queue<E>, c: nat, choice: Choice<E>)
    requires Right(q) && c < |q.threads|
    ensures Balanced(Step(q, c, choice))
  {
    hide Stored, Fifo, Step, Guarded, Counts;
    RingSize(q);
    ReadyToLoad(q, c);
    StepMoves(q, c, choice);
    StepOwed(q, c, choice);
    var q' := Step(q, c, choice);
    assert Owing(q'.threads) == Owing(q.threads)[c := Owed(q'.threads[c])];
    SumUpdate(Owing(q.threads), c, Owed(q'.threads[c]));
  }

  lemma RingSize<E>(q: Queue<E>)
    requires Right(q)
    ensures |q.ring| == NEVENTS
  {
  }

  lemma ReadyToLoad<E>(q: Queue<E>, c: nat)
    requires Right(q) && c < |q.threads|
    ensures q.threads[c].Load? ==> 0 <= q.threads[c].idx < NEVENTS
  {
    hide Balanced, Counts, Fifo;
    assert q.threads[c].Load? ==> Ringer(q) == q.threads[c];
  }

  /** A thread that was let past the semaphore finds an event: the second panic is never reached. */
  lemma NeverEmpty<E>(q: Queue<E>, c: nat)
    requires Right(q) && q.initial <= 0 && c < |q.threads| && q.threads[c].CheckEmpty?
    ensures |q.popped| < |q.pushed| && (q.halted.Running? ==> q.rear != q.front)
  {
    assert Ringer(q) == q.threads[c];
    SumAtLeast(Owing(q.threads), c);
    if q.halted.Running? {
      OtherSlot(|q.popped|, |q.pushed|);
    }
  }

  lemma StepNotEmpty<E>(q: Queue<E>, c: nat, choice: Choice<E>)
    requires Right(q) && c < |q.threads|
    ensures q.initial <= 0 ==> !Step(q, c, choice).halted.QueueEmpty?
  {
    RingSize(q);
    hide Right;
    if q.initial <= 0 && q.threads[c].CheckEmpty? {
      NeverEmpty(q, c);
    }
    NotYetEmpty(q);
  }

  lemma NotYetEmpty<E>(q: Queue<E>)
    requires Right(q)
    ensures q.initial <= 0 ==> !q.halted.QueueEmpty?
  {
  }

  lemma StepInitial<E>(q: Queue<E>, c: nat, choice: Choice<E>)
    requires c < |q.threads| && |q.ring| == NEVENTS
    ensures Step(q, c, choice).initial == q.initial
  {
  }

  lemma StepRight<E>(q: Queue<E>, c: nat, choice: Choice<E>)
    requires Right(q) && c < |q.threads|
    ensures Right(Step(q, c, choice))
  {
    hide Guarded, Counts, Stored, Fifo, Balanced, Step;
    RingSize(q);
    StepInitial(q, c, choice);
    StepGuarded(q, c, choice);
    StepCounts(q, c, choice);
    StepStored(q, c, choice);
    StepFifo(q, c, choice);
    StepBalanced(q, c, choice);
    StepNotEmpty(q, c, choice);
  }

  // ---- What the callers give and get

  /** How often event `e` is with a thread that has been asked to push it and has not pushed it yet. */
  ghost function Carries<E>(pc: Pc<E>, e: E): nat {
    if (pc.PushLock? || pc.Store? || pc.BumpRear?) && pc.ev == e then 1 else 0
  }

  ghost function Carrying<E>(threads: seq<Pc<E>>, e: E): (r: seq<nat>)
    ensures |r| == |threads| && forall c :: 0 <= c < |threads| ==> r[c] == Carries(threads[c], e)
  {
    seq(|threads|, c requires 0 <= c < |threads| => Carries(threads[c], e))
  }

  /** The step asks for `e` to be pushed: an idle thread is given it. */
  ghost function AskedBy<E>(q: Queue<E>, c: nat, choice: Choice<E>, e: E): nat
    requires c < |q.threads|
  {
    if q.halted.Running? && q.threads[c].Idle? && choice == Push(e) then 1 else 0
  }

  /** What the step hands out: a thread leaves `pop_event` with an event. */
  ghost function HandedBy<E>(q: Queue<E>, c: nat): seq<E>
    requires c < |q.threads|
  {
    if q.halted.Running? && q.threads[c].PopUnlock? then [q.threads[c].ev] else []
  }

  /** A thread about to leave with an event has the last one taken out. */
  ghost predicate LastTaken<E>(q: Queue<E>) {
    Ringer(q).PopUnlock? ==> q.popped != [] && q.popped[|q.popped| - 1] == Ringer(q).ev
  }

  /** The events that threads have left with. */
  ghost function Delivered<E>(q: Queue<E>): seq<E> {
    if Ringer(q).PopUnlock? && q.popped != [] then q.popped[..|q.popped| - 1] else q.popped
  }

  /** What a step pushes. */
  lemma StepPushes<E>(q: Queue<E>, c: nat, choice: Choice<E>)
    requires c < |q.threads| && |q.ring| == NEVENTS && (q.threads[c].Store? ==> 0 <= q.rear < NEVENTS)
    ensures Step(q, c, choice).pushed == if q.halted.Running? && q.threads[c].BumpRear?
                                         then q.pushed + [q.threads[c].ev] else q.pushed
  {
  }

  /** What it is to push next. */
  lemma StepCarries<E>(q: Queue<E>, c: nat, choice: Choice<E>, e: E)
    requires c < |q.threads| && |q.ring| == NEVENTS && (q.threads[c].Store? ==> 0 <= q.rear < NEVENTS)
    ensures var next := Step(q, c, choice).threads[c];
            Carries(next, e) + (if q.halted.Running? && q.threads[c].BumpRear? && q.threads[c].ev == e then 1 else 0)
            == Carries(q.threads[c], e) + AskedBy(q, c, choice, e)
  {
    var pc := q.threads[c];
    if !q.halted.Running? {
    } else if InRing(pc) {
    } else if InSem(pc) {
    } else {
      assert pc.Idle? || pc.PushLock? || pc.SigLock? || pc.WaitLock? || pc.PopLock?;
    }
  }

  /** Every event that is asked for is on its way or has been pushed, as often as it was asked for. */
  lemma StepAsked<E>(q: Queue<E>, c: nat, choice: Choice<E>, e: E)
    requires Right(q) && c < |q.threads|
    ensures var q' := Step(q, c, choice);
            multiset(q'.pushed)[e] + Sum(Carrying(q'.threads, e))
            == multiset(q.pushed)[e] + Sum(Carrying(q.threads, e)) + AskedBy(q, c, choice, e)
  {
    hide Stored, Fifo, Step, Counts, Balanced, Carries, AskedBy;
    RingSize(q);
    RearInRing(q);
    StepMoves(q, c, choice);
    StepPushes(q, c, choice);
    StepCarries(q, c, choice, e);
    var next := Step(q, c, choice).threads[c];
    assert Carrying(q.threads[c := next], e) == Carrying(q.threads, e)[c := Carries(next, e)];
    SumUpdate(Carrying(q.threads, e), c, Carries(next, e));
  }

  lemma RearInRing<E>(q: Queue<E>)
    requires Right(q)
    ensures 0 <= q.rear < NEVENTS
  {
  }

  /** What a step takes out, and who holds the ring lock after it. */
  lemma StepTakes<E>(q: Queue<E>, c: nat, choice: Choice<E>)
    requires c < |q.threads| && |q.ring| == NEVENTS && (q.threads[c].Load? ==> 0 <= q.threads[c].idx < NEVENTS)
    ensures var q', pc := Step(q, c, choice), q.threads[c];
            if q.halted.Running? && pc.Load? then
              q'.popped == q.popped + [q.ring[pc.idx]] && q'.threads[c] == PopUnlock(q.ring[pc.idx])
            else
              && q'.popped == q.popped
              && (q'.threads[c].PopUnlock? ==> q' == q)
              && (q.halted.Running? && pc.PopUnlock? ==> q'.ringHolder == -1)
              && (!q.halted.Running? ==> q' == q)
  {
    var pc := q.threads[c];
    if !q.halted.Running? {
    } else if InRing(pc) {
    } else if InSem(pc) {
    } else {
      assert pc.Idle? || pc.PushLock? || pc.SigLock? || pc.WaitLock? || pc.PopLock?;
    }
  }

  /** Threads leave with the events that are taken out, in that order. */
  lemma StepHanded<E>(q: Queue<E>, c: nat, choice: Choice<E>)
    requires Right(q) && LastTaken(q) && c < |q.threads|
    ensures var q' := Step(q, c, choice);
            LastTaken(q') && Delivered(q') == Delivered(q) + HandedBy(q, c)
  {
    hide Stored, Fifo, Step, Counts, Balanced, InSem;
    RingSize(q);
    ReadyToLoad(q, c);
    StepMoves(q, c, choice);
    StepTakes(q, c, choice);
    RingerIs(q, c);
    var q' := Step(q, c, choice);
    if q.halted.Running? && q.threads[c].Load? {
      assert Ringer(q') == q'.threads[c];
    } else if q.ringHolder != c && q'.ringHolder != c {
      assert Ringer(q') == Ringer(q);
    }
  }

  lemma RingerIs<E>(q: Queue<E>, c: nat)
    requires Right(q) && c < |q.threads|
    ensures InRing(q.threads[c]) ==> q.ringHolder == c && Ringer(q) == q.threads[c]
    ensures -1 <= q.ringHolder < |q.threads|
  {
  }

  // ---- Whole runs

  /** An empty ring and a semaphore as `sem_init` leaves it; `input_init` starts it at 0. */
  function Empty<E>(ring: seq<E>, n: nat, initial: int): Queue<E> {
    Queue(seq(n, c => Idle), ring, 0, 0, -1, initial, initial, -1, Running, [], [], 0, 0)
  }

  lemma EmptyRight<E>(ring: seq<E>, n: nat, initial: int)
    requires |ring| == NEVENTS
    ensures Right(Empty(ring, n, initial))
  {
    SumZero(Owing(Empty(ring, n, initial).threads));
  }

  /** Threads take steps in any order. */
  function Run<E>(q: Queue<E>, schedule: seq<(nat, Choice<E>)>): Queue<E>
    requires |q.ring| == NEVENTS && forall k :: 0 <= k < |schedule| ==> schedule[k].0 < |q.threads|
    decreases |schedule|
  {
    if schedule == [] then q else Run(Step(q, schedule[0].0, schedule[0].1), schedule[1..])
  }

  lemma {:induction false} RunRight<E>(q: Queue<E>, schedule: seq<(nat, Choice<E>)>)
    requires |q.ring| == NEVENTS && Right(q)
    requires forall k :: 0 <= k < |schedule| ==> schedule[k].0 < |q.threads|
    ensures Right(Run(q, schedule)) && Run(q, schedule).initial == q.initial
    decreases |schedule|
  {
    hide Right, Step;
    if schedule != [] {
      StepRight(q, schedule[0].0, schedule[0].1);
      StepInitial(q, schedule[0].0, schedule[0].1);
      RunRight(Step(q, schedule[0].0, schedule[0].1), schedule[1..]);
    }
  }

  /** How often `e` was chosen to be pushed on the way. */
  ghost function Asked<E>(q: Queue<E>, schedule: seq<(nat, Choice<E>)>, e: E): nat
    requires |q.ring| == NEVENTS && forall k :: 0 <= k < |schedule| ==> schedule[k].0 < |q.threads|
    decreases |schedule|
  {
    if schedule == [] then 0
    else AskedBy(q, schedule[0].0, schedule[0].1, e) + Asked(Step(q, schedule[0].0, schedule[0].1), schedule[1..], e)
  }

  /** The events threads leave `pop_event` with on the way, in that order. */
  ghost function Received<E>(q: Queue<E>, schedule: seq<(nat, Choice<E>)>): seq<E>
    requires |q.ring| == NEVENTS && forall k :: 0 <= k < |schedule| ==> schedule[k].0 < |q.threads|
    decreases |schedule|
  {
    if schedule == [] then []
    else HandedBy(q, schedule[0].0) + Received(Step(q, schedule[0].0, schedule[0].1), schedule[1..])
  }

  lemma {:induction false} RunDelivers<E>(q: Queue<E>, schedule: seq<(nat, Choice<E>)>, e: E)
    requires |q.ring| == NEVENTS && Right(q) && LastTaken(q)
    requires forall k :: 0 <= k < |schedule| ==> schedule[k].0 < |q.threads|
    ensures var q' := Run(q, schedule);
            && LastTaken(q') && Delivered(q') == Delivered(q) + Received(q, schedule)
            && multiset(q'.pushed)[e] + Sum(Carrying(q'.threads, e))
               == multiset(q.pushed)[e] + Sum(Carrying(q.threads, e)) + Asked(q, schedule, e)
    decreases |schedule|
  {
    hide Right, Step, LastTaken, Delivered, AskedBy, HandedBy;
    if schedule != [] {
      var c, choice := schedule[0].0, schedule[0].1;
      StepRight(q, c, choice);
      StepAsked(q, c, choice, e);
      StepHanded(q, c, choice);
      RunDelivers(Step(q, c, choice), schedule[1..], e);
    }
  }

  lemma EmptyDelivered<E>(ring: seq<E>, n: nat, initial: int, e: E)
    ensures var q := Empty(ring, n, initial);
            LastTaken(q) && Delivered(q) == [] && multiset(q.pushed)[e] + Sum(Carrying(q.threads, e)) == 0
  {
    SumZero(Carrying(Empty(ring, n, initial).threads, e));
  }

  lemma RightMeans<E>(q: Queue<E>)
    requires Right(q)
    ensures q.popped <= q.pushed && q.value == q.initial + q.signals - q.waits >= Min(q.initial, 0)
    ensures q.initial <= 0 ==> !q.halted.QueueEmpty?
    ensures Delivered(q) <= q.popped && |q.popped| <= |Delivered(q)| + 1
  {
  }

  /**
   From an empty queue, over every interleaving: what readers receive are events that were asked to be pushed,
   each once, in the order in which they entered the ring; every such event is still carried by its pusher or has
   entered; the semaphore is what it started with and was signalled, less what was waited for, and no wait takes
   it below 0; and a reader never finds the queue empty if the semaphore started at 0 or below.
   */
  lemma {:induction false} RunSafe<E>(ring: seq<E>, n: nat, initial: int, schedule: seq<(nat, Choice<E>)>, e: E)
    requires |ring| == NEVENTS && forall k :: 0 <= k < |schedule| ==> schedule[k].0 < n
    ensures Right(Empty(ring, n, initial))
    ensures var q := Run(Empty(ring, n, initial), schedule);
            && q.popped <= q.pushed && q.value == initial + q.signals - q.waits >= Min(initial, 0)
            && (initial <= 0 ==> !q.halted.QueueEmpty?)
            && Received(Empty(ring, n, initial), schedule) <= q.pushed
            && |q.popped| <= |Received(Empty(ring, n, initial), schedule)| + 1
            && multiset(q.pushed)[e] + Sum(Carrying(q.threads, e)) == Asked(Empty(ring, n, initial), schedule, e)
  {
    hide Right, Step, LastTaken, Delivered, Asked, Received;
    var q0 := Empty(ring, n, initial);
    EmptyRight(ring, n, initial);
    EmptyDelivered(ring, n, initial, e);
    RunRight(q0, schedule);
    RunDelivers(q0, schedule, e);
    RightMeans(Run(q0, schedule));
  }

  /** A lone reader `k` steps before it finds the queue empty. */
  ghost predicate Lone<E>(q: Queue<E>, k: nat) {
    && |q.threads| > 0 && |q.ring| == NEVENTS && q.front == q.rear
    && q.halted == (if k == 0 then QueueEmpty else Running)
    && var pc := q.threads[0];
       && (k >= 2 ==> q.ringHolder == -1) && (k >= 7 ==> q.semHolder == -1) && (k >= 6 ==> q.value > 0)
       && match k
          case 0 => true
          case 1 => pc.CheckEmpty?
          case 2 => pc.PopLock?
          case 3 => pc.WaitUnlock?
          case 4 => pc.WaitWrite?
          case 5 => pc.WaitRead?
          case 6 => pc.Test?
          case 7 => pc.WaitLock?
          case 8 => pc.Idle?
          case _ => false
  }

  function Pops<E>(k: nat): seq<(nat, Choice<E>)> {
    if k == 0 then [] else [(0, Pop)] + Pops(k - 1)
  }

  lemma {:induction false} LoneReader<E>(q: Queue<E>, k: nat)
    requires Lone(q, k)
    ensures forall i :: 0 <= i < |Pops<E>(k)| ==> Pops<E>(k)[i] == (0, Pop)
    ensures Run(q, Pops(k)).halted.QueueEmpty?
    decreases k
  {
    if k > 0 {
      assert Lone(Step(q, 0, Pop), k - 1);
      LoneReader(Step(q, 0, Pop), k - 1);
      assert Pops<E>(k)[1..] == Pops<E>(k - 1);
    }
  }

  /** Started higher, the semaphore lets a lone reader through to an empty queue. */
  lemma StartedTooHigh<E>(ring: seq<E>, n: nat, initial: int) returns (schedule: seq<(nat, Choice<E>)>)
    requires |ring| == NEVENTS && n > 0 && initial > 0
    ensures forall k :: 0 <= k < |schedule| ==> schedule[k].0 < n
    ensures Run(Empty(ring, n, initial), schedule).halted.QueueEmpty?
  {
    schedule := Pops(8);
    LoneReader(Empty(ring, n, initial), 8);
  }
}
