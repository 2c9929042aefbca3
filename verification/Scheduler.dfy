/**
 The task list, the current task of each processor, and the switch from one task to the next.
 */
module Scheduler {
  import opened Bits
  import opened SchedulerSpec

  const MAX_CPU: nat := 8

  datatype TaskState = Free | Working

  class Task {
    var state: TaskState
    var cpu: int
    var tid: int

    constructor ()
      ensures fresh(this)
    {
      state, cpu, tid := Free, 0, 0;
    }
  }

  class TaskNode {
    const task: Task
    var next: TaskNode?

    constructor (task: Task)
      ensures this.task == task && next == null
    {
      this.task, next := task, null;
    }
  }

  function At(nodes: seq<TaskNode>, i: int): TaskNode? {
    if 0 <= i < |nodes| then nodes[i] else null
  }

  /** Linked in this order, no node and no task twice. */
  ghost predicate Listed(nodes: seq<TaskNode>, head: TaskNode?)
    reads nodes`next
  {
    && head == At(nodes, 0)
    && (forall i {:trigger nodes[i].next} :: 0 <= i < |nodes| ==> nodes[i].next == At(nodes, i + 1))
    && (forall i, j :: 0 <= i < j < |nodes| ==> nodes[i] != nodes[j] && nodes[i].task != nodes[j].task)
  }

  ghost function Tasks(nodes: seq<TaskNode>): set<Task> {
    set i | 0 <= i < |nodes| :: nodes[i].task
  }

  ghost predicate PinnedTo(nodes: seq<TaskNode>, pins: seq<int>)
    reads Tasks(nodes)`cpu
  {
    |pins| == |nodes| && forall i :: 0 <= i < |nodes| ==> pins[i] == nodes[i].task.cpu
  }

  /** Current tasks run where they are pinned. */
  ghost predicate OnOwn(pins: seq<int>, places: seq<int>) {
    forall c :: 0 <= c < |places| ==> -1 <= places[c] < |pins| && (places[c] >= 0 ==> pins[places[c]] == c)
  }

  /** Which tasks are working. */
  ghost predicate StatesAre(nodes: seq<TaskNode>, ws: seq<bool>)
    reads Tasks(nodes)`state
  {
    |ws| == |nodes| && forall i :: 0 <= i < |nodes| ==> (nodes[i].task.state.Working? <==> ws[i])
  }

  /** Which tasks are working when those in `places` are. */
  ghost function WorkingAt(pins: seq<int>, places: seq<int>): (ws: seq<bool>)
    ensures |ws| == |pins|
    ensures forall i :: 0 <= i < |pins| ==>
              (ws[i] <==> 0 <= pins[i] < |places| && places[pins[i]] == i)
  {
    seq(|pins|, i requires 0 <= i < |pins| => 0 <= pins[i] < |places| && places[pins[i]] == i)
  }

  /** One processor's old task is set free and its new one working. */
  lemma WorkingAfter(pins: seq<int>, places: seq<int>, c: nat, pos: nat)
    requires c < |places| && -1 <= places[c] < |pins| && pos < |pins| && pins[pos] == c
    requires places[c] >= 0 ==> pins[places[c]] == c
    ensures var working := WorkingAt(pins, places);
            var freed := if places[c] >= 0 then working[places[c] := false] else working;
            && (forall i :: 0 <= i < |pins| && pins[i] == c ==> !freed[i])
            && freed[pos := true] == WorkingAt(pins, places[c := pos])
  {
  }

  method SetState(task: Task, state: TaskState, ghost nodes: seq<TaskNode>, ghost ws: seq<bool>, ghost i: nat)
    requires i < |nodes| && task == nodes[i].task && StatesAre(nodes, ws)
    requires forall i, j :: 0 <= i < j < |nodes| ==> nodes[i].task != nodes[j].task
    modifies task`state
    ensures StatesAre(nodes, ws[i := state.Working?]) && task.state == state
  {
    task.state := state;
  }

  /** A free task at the end of the list changes nothing for the others. */
  lemma OneMore(nodes: seq<TaskNode>, pins: seq<int>, places: seq<int>, tn: TaskNode)
    requires PinnedTo(nodes, pins) && OnOwn(pins, places) && StatesAre(nodes, WorkingAt(pins, places))
    requires tn.task.state.Free?
    ensures PinnedTo(nodes + [tn], pins + [tn.task.cpu]) && OnOwn(pins + [tn.task.cpu], places)
    ensures StatesAre(nodes + [tn], WorkingAt(pins + [tn.task.cpu], places))
  {
  }

  lemma FreedTasks(nodes: seq<TaskNode>, pins: seq<int>, ws: seq<bool>, c: int)
    requires StatesAre(nodes, ws) && |pins| == |nodes| == |ws| && forall i :: 0 <= i < |pins| && pins[i] == c ==> !ws[i]
    ensures forall i :: 0 <= i < |nodes| && pins[i] == c ==> nodes[i].task.state.Free?
  {
  }

  lemma CurrentWorks(nodes: seq<TaskNode>, pins: seq<int>, places: seq<int>, c: nat)
    requires StatesAre(nodes, WorkingAt(pins, places)) && |pins| == |nodes| && c < |places|
    requires 0 <= places[c] < |nodes| && pins[places[c]] == c
    ensures nodes[places[c]].task.state.Working?
  {
  }

  lemma TasksDiffer(nodes: seq<TaskNode>, head: TaskNode?)
    requires Listed(nodes, head)
    ensures forall i, j :: 0 <= i < j < |nodes| ==> nodes[i] != nodes[j] && nodes[i].task != nodes[j].task
  {
  }

  class Kmt {
    const ncpu: nat
    const current: array<TaskNode?>
    var head: TaskNode?
    var taskCount: nat
    ghost var nodes: seq<TaskNode>
    /** Which processor each task is pinned to, and where each processor's current task is, or -1. */
    ghost var pins: seq<int>
    ghost var places: seq<int>

    /** The array names the current tasks. */
    ghost predicate CurrentAt(ps: seq<int>)
      reads this`nodes, current
    {
      CurrentWith(nodes, ps)
    }

    ghost predicate CurrentWith(ns: seq<TaskNode>, ps: seq<int>)
      reads current
    {
      && |ps| == current.Length == MAX_CPU
      && forall c :: 0 <= c < MAX_CPU ==> -1 <= ps[c] < |ns| && current[c] == At(ns, ps[c])
    }

    /** Exactly the current tasks are working, each on the processor it is pinned to. */
    ghost predicate Valid()
      reads this, current, nodes`next, Tasks(nodes)
    {
      && 0 < ncpu <= MAX_CPU && taskCount == |nodes| && Listed(nodes, head) && PinnedTo(nodes, pins)
      && CurrentAt(places) && OnOwn(pins, places) && StatesAre(nodes, WorkingAt(pins, places))
    }

    constructor Init(ncpu: nat)
      requires 0 < ncpu <= MAX_CPU
      ensures Valid() && nodes == [] && this.ncpu == ncpu && fresh(current)
      ensures places == seq(MAX_CPU, _ => -1)
    {
      this.ncpu := ncpu;
      current := new TaskNode?[MAX_CPU](_ => null);
      head, taskCount, nodes, pins, places := null, 0, [], [], seq(MAX_CPU, _ => -1);
    }

    lemma CurrentStays(tn: TaskNode)
      requires CurrentAt(places)
      ensures CurrentWith(nodes + [tn], places)
    {
    }

    /** Links a node in at the end. */
    method LinkLast(tn: TaskNode)
      requires Listed(nodes, head) && tn !in nodes && tn.task !in Tasks(nodes) && tn.next == null
      modifies `head, nodes`next
      ensures Listed(nodes + [tn], head)
    {
      if head == null {
        head := tn;
      } else {
        var last := GetLastTask();
        last.next := tn;
      }
    }

    /** `create`: the task goes to the end of the list, pinned in turn. */
    method Create(task: Task) returns (ok: int)
      requires Valid() && task !in Tasks(nodes)
      modifies this, task, nodes`next
      ensures Valid() && places == old(places)
      ensures |nodes| == |old(nodes)| + 1 && nodes == old(nodes) + [nodes[|old(nodes)|]]
      ensures nodes[|old(nodes)|].task == task
      ensures pins == old(pins) + [old(taskCount) % ncpu]
      ensures task.state.Free? && task.tid == taskCount
    {
      hide Listed, WorkingAt, StatesAre, PinnedTo, OnOwn, CurrentWith;
      DivMod(taskCount, ncpu);
      task.state := Free;
      task.cpu := taskCount % ncpu;
      var tn := new TaskNode(task);
      taskCount := taskCount + 1;
      task.tid := taskCount;
      LinkLast(tn);
      OneMore(nodes, pins, places, tn);
      CurrentStays(tn);
      nodes, pins := nodes + [tn], pins + [task.cpu];
      ok := 0;
    }

    /** `get_task`. */
    method GetTask(position: int) returns (cur: TaskNode?)
      requires Listed(nodes, head) && 0 <= position
      ensures cur == At(nodes, position)
    {
      cur := head;
      var left := position;
      while cur != null && left > 0
        invariant 0 <= left <= position && cur == At(nodes, position - left)
      {
        left := left - 1;
        cur := cur.next;
      }
    }

    /** `find_task_index`: -1 for a node that is not in the list, and for none. */
    method FindTaskIndex(target: TaskNode?) returns (ans: int)
      requires Listed(nodes, head)
      ensures -1 <= ans < |nodes|
      ensures if ans == -1 then target == null || target !in nodes else target == nodes[ans]
    {
      var cur := head;
      ans := 0;
      while cur != null
        invariant 0 <= ans <= |nodes| && cur == At(nodes, ans)
        invariant forall i :: 0 <= i < ans ==> nodes[i] != target
        decreases |nodes| - ans
      {
        if cur == target {
          return;
        }
        ans := ans + 1;
        cur := cur.next;
      }
      ans := -1;
    }

    /** `get_last_task`. */
    method GetLastTask() returns (ans: TaskNode?)
      requires Listed(nodes, head)
      ensures ans == At(nodes, |nodes| - 1)
    {
      var cur := head;
      ans := cur;
      ghost var i := 0;
      while cur != null
        invariant 0 <= i <= |nodes| && cur == At(nodes, i) && ans == if i == 0 then head else At(nodes, i - 1)
        decreases |nodes| - i
      {
        ans := cur;
        cur := cur.next;
        i := i + 1;
      }
    }

    /** The search of `context_switch`, once the current task has been set free. */
    method Search(c: nat, start: int) returns (tk: TaskNode, ghost pos: nat)
      requires Listed(nodes, head) && taskCount == |nodes| == |pins| > 0 && -1 <= start < |nodes|
      requires PinnedTo(nodes, pins) && forall i :: 0 <= i < |nodes| && pins[i] == c ==> nodes[i].task.state.Free?
      requires c in pins
      ensures pos == Selected(pins, c, start) && tk == nodes[Selected(pins, c, start)] && pins[pos] == c
      ensures tk.task in Tasks(nodes)
    {
      var index := start + 1;
      pos := After(start, |nodes|);
      AfterIsModulo(start, |nodes|);
      var first := GetTask(index % taskCount);
      tk := first;
      ghost var j :| 0 <= j < |pins| && pins[j] == c;
      ghost var steps: nat := |pins|;
      while !(tk.task.state.Free? && tk.task.cpu == c)
        invariant pos < |nodes| && tk == nodes[pos] && (index == pos || (index == |nodes| && pos == 0))
        invariant NextFrom(pins, c, pos, steps) == Selected(pins, c, start)
        invariant (if j >= pos then j - pos else |nodes| - pos + j) <= steps
        decreases steps
      {
        RoundAgain(index, pos, |nodes|);
        index := (index + 1) % taskCount;
        pos := After(pos, |nodes|);
        steps := steps - 1;
        var again := GetTask(index);
        tk := again;
      }
    }

    lemma CurrentFacts(c: nat)
      requires CurrentAt(places) && OnOwn(pins, places) && PinnedTo(nodes, pins) && c < MAX_CPU
      ensures current.Length == |places| == MAX_CPU && |pins| == |nodes| && -1 <= places[c] < |nodes|
      ensures current[c] == At(nodes, places[c])
      ensures places[c] >= 0 ==> pins[places[c]] == c && current[c].task in Tasks(nodes)
    {
    }

    method TakeOver(c: nat, tk: TaskNode, ghost pos: nat)
      requires CurrentAt(places) && OnOwn(pins, places) && PinnedTo(nodes, pins) && c < MAX_CPU
      requires pos < |nodes| == |pins| && tk == nodes[pos] && pins[pos] == c
      modifies `places, current, tk.task`cpu
      ensures |old(places)| == MAX_CPU && places == old(places)[c := pos] && CurrentAt(places) && OnOwn(pins, places)
      ensures PinnedTo(nodes, pins)
    {
      tk.task.cpu := c;
      current[c] := tk;
      places := places[c := pos];
    }

    /** The current task, if any, is set free. */
    method LetGo(c: nat, ghost ws: seq<bool>) returns (index: int)
      requires CurrentAt(places) && OnOwn(pins, places) && PinnedTo(nodes, pins) && c < MAX_CPU && Listed(nodes, head)
      requires StatesAre(nodes, ws) && ws == WorkingAt(pins, places)
      modifies Tasks(nodes)`state
      ensures |places| == MAX_CPU && |pins| == |nodes| == |ws| && -1 <= places[c] < |nodes| && index == places[c]
      ensures places[c] >= 0 ==> pins[places[c]] == c
      ensures StatesAre(nodes, if index >= 0 then ws[index := false] else ws)
    {
      hide Listed, WorkingAt, StatesAre, PinnedTo, OnOwn, CurrentAt;
      TasksDiffer(nodes, head);
      CurrentFacts(c);
      var cur := current[c];
      index := FindTaskIndex(cur);
      if cur != null {
        CurrentWorks(nodes, pins, places, c);
        assert cur.task.state.Working?;
        SetState(cur.task, Free, nodes, ws, index);
      }
    }

    /** The next task pinned to this processor takes over. */
    method TakeNext(c: nat, index: int, ghost ws: seq<bool>) returns (tk: TaskNode)
      requires CurrentAt(places) && OnOwn(pins, places) && PinnedTo(nodes, pins) && c < MAX_CPU && Listed(nodes, head)
      requires taskCount == |nodes|
      requires |places| == MAX_CPU && |pins| == |nodes| && c in pins && -1 <= places[c] < |nodes| && index == places[c]
      requires places[c] >= 0 ==> pins[places[c]] == c
      requires StatesAre(nodes, ws)
      requires ws == if index >= 0 then WorkingAt(pins, places)[index := false] else WorkingAt(pins, places)
      modifies `places, current, Tasks(nodes)
      ensures CurrentAt(places) && OnOwn(pins, places) && PinnedTo(nodes, pins)
      ensures StatesAre(nodes, WorkingAt(pins, places))
      ensures places == Switch(pins, old(places), c) && tk == nodes[places[c]] && pins[places[c]] == c
    {
      hide Listed, WorkingAt, StatesAre, PinnedTo, OnOwn, CurrentAt;
      ghost var pos :| 0 <= pos < |pins| && pins[pos] == c;
      WorkingAfter(pins, places, c, pos);
      FreedTasks(nodes, pins, ws, c);
      tk, pos := Search(c, index);
      WorkingAfter(pins, places, c, pos);
      TasksDiffer(nodes, head);
      SetState(tk.task, Working, nodes, ws, pos);
      TakeOver(c, tk, pos);
    }

    /** `context_switch`: the next task pinned to this processor takes over from the current one. */
    method ContextSwitch(c: nat) returns (tk: TaskNode)
      requires Valid() && c < MAX_CPU && c in pins
      modifies `places, current, Tasks(nodes)
      ensures Valid() && -1 <= old(places)[c] < |pins| && places == Switch(pins, old(places), c)
      ensures tk == nodes[places[c]] && pins[places[c]] == c
    {
      hide Listed, WorkingAt, StatesAre, PinnedTo, OnOwn, CurrentAt;
      ghost var ws := WorkingAt(pins, places);
      var index := LetGo(c, ws);
      tk := TakeNext(c, index, if index >= 0 then ws[index := false] else ws);
    }
  }

  lemma RoundAgain(index: nat, pos: nat, n: nat)
    requires pos < n && (index == pos || (index == n && pos == 0))
    ensures (index + 1) % n == After(pos, n)
  {
    AfterIsModulo(pos, n);
    if index == n {
      if n == 1 {
        DivUnique(n + 1, n, 2, 0);
      } else {
        DivUnique(n + 1, n, 1, 1);
      }
    }
  }
}
