/** The task pool object of src/common/src/task_pool.c. Each method is what one thread does while it holds the mutex;
    runTask, which lets go of it around the task and completion functions, is three methods. */
module TaskPool {
  import opened Wrappers
  import opened TaskPoolState
  import opened TaskPoolSteps
  import opened TaskPoolWakeUp
  import opened TaskPoolOperations

  class LdcTaskPool {
    const threadCount: nat
    var tasks: seq<Task>
    var pendingTaskCount: int
    var dependencyValues: map<nat, int>
    var waitingTasks: seq<seq<nat>>
    var readyParts: seq<Part>
    ghost var external: map<nat, int>

    ghost function State(): Pool
      reads this
    {
      Pool(threadCount, tasks, pendingTaskCount, dependencyValues, waitingTasks, readyParts, external)
    }

    constructor (threads: nat)
      requires threads > 0
      ensures State() == Initial(threads) && PoolOk(State())
    {
      threadCount, tasks, pendingTaskCount, dependencyValues, waitingTasks, readyParts := threads, [], 0, map[], [], [];
      external := map[];
      new;
    }

    /** taskLowestUnmetDependency; the number of inputs when all are met. */
    method LowestUnmet(t: nat) returns (i: nat)
      requires t < |tasks|
      ensures i == FirstUnmet(tasks[t].inputs, dependencyValues, 0)
    {
      i := 0;
      while i < |tasks[t].inputs| && tasks[t].inputs[i] in dependencyValues
        invariant i <= |tasks[t].inputs|
        invariant FirstUnmet(tasks[t].inputs, dependencyValues, i) == FirstUnmet(tasks[t].inputs, dependencyValues, 0)
      {
        i := i + 1;
      }
    }

    /** getNextTask: a task off its list is new again until it is scheduled. */
    method GetNextTask(d: nat)
      requires d < |waitingTasks| && |waitingTasks[d]| > 0 && waitingTasks[d][0] < |tasks|
      modifies this`tasks, this`waitingTasks
      ensures State() == Detach(old(State()), d)
    {
      var t := waitingTasks[d][0];
      tasks := tasks[t := tasks[t].(state := New)];
      waitingTasks := waitingTasks[d := waitingTasks[d][1..]];
    }

    /** scheduleTask, for a new task, or for the task at the head of the list of a dependency that has just been met.
        The source's third case, a task already on the right list, cannot arise: its dependency would be unmet. */
    method ScheduleTask(t: nat, head: Option<nat>, ghost busy: set<nat>)
      requires CanSchedule(State(), busy, t, head)
      modifies this
      ensures State() == Scheduled(old(State()), busy, t, head)
      decreases ScheduleWork(State(), head), 2
    {
      hide Inv, OnlyOpen, Schedule, MakeReady, Detach, Park, TotalWork;
      ghost var s := State();
      ScheduleFacts(s, busy, t, head);
      var i := LowestUnmet(t);
      assert i < |tasks[t].inputs| && tasks[t].state == Waiting ==> tasks[t].inputs[tasks[t].at] != tasks[t].inputs[i];
      if head.Some? {
        GetNextTask(head.value);
      }
      ghost var m := State();
      if i == |tasks[t].inputs| {
        ReadyTask(t, busy);
        ScheduleReady(m, busy, t);
      } else {
        ScheduleParked(m, busy, t, i);
        ParkTask(t, i);
      }
    }

    /** Adds a task to the list of one of its inputs. */
    method ParkTask(t: nat, i: nat)
      requires t < |tasks| && i < |tasks[t].inputs| && tasks[t].inputs[i] < |waitingTasks|
      modifies this`tasks, this`waitingTasks
      ensures State() == Park(old(State()), t, i)
    {
      var d := tasks[t].inputs[i];
      tasks := tasks[t := tasks[t].(state := Waiting, at := i)];
      waitingTasks := waitingTasks[d := [t] + waitingTasks[d]];
    }

    /** readyTask, with worker threads. */
    method ReadyTask(t: nat, ghost busy: set<nat>)
      requires Inv(State(), busy) && OnlyOpen(State(), t) && t < |tasks| && tasks[t].state == New
      requires InputsMet(State(), tasks[t])
      modifies this
      ensures State() == MakeReady(old(State()), busy, t)
      decreases TotalWork(State()), 1
    {
      hide Inv, OnlyOpen, Finish, Issue, TotalWork, InputsMet;
      if !tasks[t].hasFunction && !tasks[t].hasCompletion {
        NullCompletes(State(), busy, t);
        FinishTask(t, 0, busy);
      } else {
        IssueKeeps(State(), busy, t);
        QueueParts(t);
      }
    }

    /** Splits a task into parts, by the number of threads, and queues them. */
    method QueueParts(t: nat)
      requires t < |tasks| && tasks[t].total > 0 && threadCount > 0
      modifies this`tasks, this`readyParts
      ensures State() == Issue(old(State()), t)
    {
      hide PerPart, Split, Entries;
      var total := tasks[t].total;
      OnePart(threadCount);
      var perPart := if total == 1 then 1 else PerPart(total, threadCount);
      var parts, queue := SplitTask(t, total, perPart);
      readyParts := readyParts + queue;
      tasks := tasks[t := tasks[t].(state := Ready, parts := parts)];
    }

    method SplitTask(t: nat, total: nat, perPart: nat) returns (parts: seq<Slice>, queue: seq<Part>)
      requires perPart > 0
      ensures parts == Split([], total, perPart) && queue == Entries(t, parts)
    {
      hide Entries;
      var start, remaining := 0, total;
      parts, queue := [], [];
      assert Entries(t, []) == [];
      while remaining > 0
        invariant remaining >= 0 && start + remaining == total
        invariant Chained(parts) && End(parts) == start && Split(parts, total, perPart) == Split([], total, perPart)
        invariant queue == Entries(t, parts)
      {
        var count := if remaining < perPart then remaining else perPart;
        queue := queue + [Part(t, |parts|, start, count)];
        parts := parts + [Slice(start, count, Queued)];
        start, remaining := start + count, remaining - count;
      }
    }

    /** finishTask */
    method FinishTask(t: nat, value: int, ghost busy: set<nat>)
      requires Inv(State(), busy) && OnlyOpen(State(), t) && CanComplete(State(), t)
      modifies this
      ensures State() == Finish(old(State()), busy, t, value)
      decreases TotalWork(State()), 0, 2
    {
      hide Inv, OnlyOpen, Wake, Work, SameLists, Grows;
      CompleteKeeps(State(), busy, t, value);
      ghost var s := State();
      var output := tasks[t].output;
      tasks := tasks[t := tasks[t].(state := Done, value := value, completed := tasks[t].total, completing := false)];
      pendingTaskCount := pendingTaskCount - 1;
      if output.Some? {
        assert output.value !in s.met ==> Marked(State(), output.value, value) == Complete(s, t, value);
        DependencyMet(output.value, value, busy);
      }
    }

    /** dependencyMet */
    method DependencyMet(d: nat, value: int, ghost busy: set<nat>)
      requires d !in dependencyValues ==> CanWake(Marked(State(), d, value), busy, d)
      modifies this
      ensures State() == if d in old(dependencyValues) then old(State())
                         else Wake(Marked(old(State()), d, value), busy, d)
      decreases TotalWork(State()), 0, 1
    {
      hide Inv, OnlyOpen, Wake, Work, Scheduled;
      if d in dependencyValues {
        return;
      }
      dependencyValues := dependencyValues[d := value];
      ghost var s := State();
      while waitingTasks[d] != []
        invariant CanWake(State(), busy, d) && Wake(State(), busy, d) == Wake(s, busy, d)
        invariant TotalWork(State()) <= TotalWork(s)
        decreases TotalWork(State())
      {
        ghost var m := State();
        ghost var next := waitingTasks[d][1..];
        WakeUnrolls(m, busy, d);
        ScheduleTask(waitingTasks[d][0], Some(d), busy + {d});
        assert waitingTasks[d] == next;
      }
      WakeStops(State(), busy, d);
    }

    // -- What callers and workers do ------------------------------------------------------------

    /** ldcTaskDependencyAdd */
    method TaskDependencyAdd() returns (dep: nat)
      requires PoolOk(State())
      modifies this
      ensures State() == AddDependency(old(State())) && PoolOk(State())
      ensures dep == |old(waitingTasks)| && dep !in dependencyValues
    {
      AddDependencyOk(State());
      dep := |waitingTasks|;
      waitingTasks := waitingTasks + [[]];
    }

    /** ldcTaskDependencyMet */
    method TaskDependencyMet(d: nat, value: int)
      requires PoolOk(State()) && d < |waitingTasks|
      modifies this
      ensures State() == MeetDependency(old(State()), d, value) && PoolOk(State())
    {
      hide Inv, OnlyOpen, Wake;
      if d !in dependencyValues {
        MarkMetKeeps(State(), d, value);
        external := external[d := value];
      }
      DependencyMet(d, value, {});
    }

    /** addTask, as ldcTaskGroupAdd and ldcTaskPoolAdd call it. */
    method AddTask(inputs: seq<nat>, output: Option<nat>, hasFunction: bool, hasCompletion: bool, iterations: nat)
      returns (t: nat)
      requires PoolOk(State()) && CanAdd(State(), inputs, output, iterations)
      modifies this
      ensures State() ==
              TaskPoolOperations.AddTask(old(State()), inputs, output, hasFunction, hasCompletion, iterations)
      ensures t == |old(tasks)| && PoolOk(State())
    {
      hide Inv, OnlyOpen, Schedule;
      AppendKeeps(State(), FreshTask(inputs, output, hasFunction, hasCompletion, iterations));
      t := |tasks|;
      pendingTaskCount := pendingTaskCount + 1;
      tasks := tasks + [FreshTask(inputs, output, hasFunction, hasCompletion, iterations)];
      ScheduleTask(t, None, {});
    }

    /** ldcTaskPoolAddSlicedDeferred, called from one of the functions of `parent`. */
    method AddSlicedDeferred(parent: nat, hasCompletion: bool, totalSize: nat) returns (t: nat)
      requires PoolOk(State()) && InFunction(State(), parent) && totalSize > 0
      modifies this
      ensures State() == DeferTask(old(State()), parent, hasCompletion, totalSize) && PoolOk(State())
      ensures t == |old(tasks)|
    {
      assert InputsOk(State(), tasks[parent]);
      hide Inv, OnlyOpen, TaskPoolOperations.AddTask;
      TakeOutputKeeps(State(), parent);
      var inputs, output := tasks[parent].inputs, tasks[parent].output;
      tasks := tasks[parent := tasks[parent].(output := None)];
      t := AddTask(inputs, output, true, hasCompletion, totalSize);
    }

    /** The worker takes a part, if there is one, and runTask up to the call of the task function. */
    method TakePart() returns (part: Option<Part>)
      requires PoolOk(State())
      modifies this
      ensures part.None? <==> old(readyParts) == []
      ensures State() == if old(readyParts) == [] then old(State()) else StartPart(old(State()))
      ensures part.Some? ==> part.value == old(readyParts)[0] && IsActive(State(), part.value.task, part.value.index)
      ensures PoolOk(State())
    {
      if readyParts == [] {
        return None;
      }
      StartPartOk(State());
      hide Inv, OnlyOpen;
      var p := readyParts[0];
      readyParts := readyParts[1..];
      assert tasks[p.task].state == if tasks[p.task].active == 0 then Ready else Running;
      tasks := tasks[p.task := tasks[p.task].(state := Running, active := tasks[p.task].active + 1,
                     parts := tasks[p.task].parts[p.index := tasks[p.task].parts[p.index].(stage := Active)])];
      part := Some(p);
    }

    /** runTask from the return of the task function, to its end or to the call of the completion function. */
    method EndPart(t: nat, index: nat, value: int) returns (complete: bool)
      requires PoolOk(State()) && IsActive(State(), t, index)
      modifies this
      ensures State() == TaskPoolOperations.EndPart(old(State()), t, index, value) && PoolOk(State())
      ensures complete <==> tasks[t].completing && !old(tasks[t].completing)
    {
      hide Inv, PoolOk, OnlyOpen, Finish, CanComplete, Settled;
      EndPartKeeps(State(), t, index);
      NotCompleting(State(), t, index);
      var task := tasks[t];
      task := task.(active := task.active - 1, parts := task.parts[index := task.parts[index].(stage := Returned)]);
      task := task.(state := if task.active == 0 then Ready else Running,
                    completed := task.completed + task.parts[index].count);
      complete := task.completed == task.total && task.hasCompletion;
      if complete {
        task := task.(completing := true, completions := task.completions + 1);
      }
      var over := task.completed == task.total && !task.hasCompletion;
      ghost var s := State();
      assert task == Returning(tasks[t], index);
      tasks := tasks[t := task];
      assert State() == SetTask(s, t, task);
      if over {
        FinishTask(t, value, {});
      }
    }

    /** runTask from the return of the completion function. */
    method EndCompletion(t: nat, value: int)
      requires PoolOk(State()) && t < |tasks| && tasks[t].completing
      modifies this
      ensures State() == TaskPoolOperations.EndCompletion(old(State()), t, value) && PoolOk(State())
    {
      hide Inv, OnlyOpen, Finish, CanComplete;
      EndCompletionReady(State(), t);
      FinishTask(t, value, {});
    }
  }

  lemma NotCompleting(s: Pool, t: nat, j: nat)
    requires PoolOk(s) && IsActive(s, t, j)
    ensures !s.tasks[t].completing && !s.tasks[t].IsNull() && s.tasks[t].state == Running
    ensures Open(Returning(s.tasks[t], j)) <==>
            s.tasks[t].completed + s.tasks[t].parts[j].count == s.tasks[t].total && !s.tasks[t].hasCompletion
  {
    assert PartsOk(s.tasks[t]) && !Open(s.tasks[t]);
    ReturningOk(s.tasks[t], j);
  }

  ghost function Marked(s: Pool, d: nat, value: int): Pool { s.(met := s.met[d := value]) }

  ghost predicate CanWake(s: Pool, busy: set<nat>, d: nat) {
    Inv(s, busy + {d}) && Settled(s) && d !in busy && d in s.met && d < |s.waiting|
  }

  ghost predicate CanSchedule(s: Pool, busy: set<nat>, t: nat, head: Option<nat>) {
    match head
    case None => Inv(s, busy) && OnlyOpen(s, t) && t < |s.tasks| && s.tasks[t].state == New
    case Some(d) => CanWake(s, busy - {d}, d) && d in busy && s.waiting[d] != [] && t == s.waiting[d][0]
  }

  /** The state scheduleTask leaves: the task has been taken off its list, if it was on one, and scheduled anew. */
  ghost function Scheduled(s: Pool, busy: set<nat>, t: nat, head: Option<nat>): Pool
    requires CanSchedule(s, busy, t, head)
  {
    match head
    case None => Schedule(s, busy, t)
    case Some(d) =>
      assert busy - {d} + {d} == busy;
      DetachKeeps(s, busy - {d}, d);
      Schedule(Detach(s, d), busy, t)
  }

  ghost function ScheduleWork(s: Pool, head: Option<nat>): int {
    if head.Some? then TotalWork(s) - 1 else TotalWork(s)
  }

  lemma ScheduleFacts(s: Pool, busy: set<nat>, t: nat, head: Option<nat>)
    requires CanSchedule(s, busy, t, head)
    ensures t < |s.tasks|
    ensures head.Some? ==> s.waiting[head.value][0] == t && head.value < |s.waiting|
    ensures var m := if head.Some? then Detach(s, head.value) else s;
            && Inv(m, busy) && OnlyOpen(m, t) && t < |m.tasks| && m.tasks[t].state == New
            && m.tasks[t].inputs == s.tasks[t].inputs && m.met == s.met
            && (head.Some? ==> TotalWork(m) < TotalWork(s)) && (head.None? ==> m == s)
            && Scheduled(s, busy, t, head) == Schedule(m, busy, t)
    ensures head.Some? ==> s.tasks[t].state == Waiting && s.tasks[t].at < |s.tasks[t].inputs| &&
                           s.tasks[t].inputs[s.tasks[t].at] in s.met
    ensures head.None? ==> s.tasks[t].state == New
  {
    if head.Some? {
      var d := head.value;
      assert busy - {d} + {d} == busy;
      DetachKeeps(s, busy - {d}, d);
      assert ListOk(s, busy, d) && Waits(s, busy, d, t);
    }
  }

  lemma ScheduleReady(s: Pool, busy: set<nat>, t: nat)
    requires Inv(s, busy) && OnlyOpen(s, t) && t < |s.tasks| && s.tasks[t].state == New
    requires FirstUnmet(s.tasks[t].inputs, s.met, 0) == |s.tasks[t].inputs|
    ensures InputsMet(s, s.tasks[t]) && Schedule(s, busy, t) == MakeReady(s, busy, t)
  {}

  lemma ScheduleParked(s: Pool, busy: set<nat>, t: nat, i: nat)
    requires Inv(s, busy) && OnlyOpen(s, t) && t < |s.tasks| && s.tasks[t].state == New
    requires i == FirstUnmet(s.tasks[t].inputs, s.met, 0) < |s.tasks[t].inputs|
    ensures s.tasks[t].inputs[i] < |s.waiting| && Schedule(s, busy, t) == Park(s, t, i)
  {
    assert InputsOk(s, s.tasks[t]);
  }

  lemma OnePart(threads: nat)
    requires threads > 0
    ensures PerPart(1, threads) == 1
  {
    assert (1 + threads - 1) / threads == 1;
  }

  lemma WakeUnrolls(s: Pool, busy: set<nat>, d: nat)
    requires CanWake(s, busy, d) && s.waiting[d] != []
    ensures CanSchedule(s, busy + {d}, s.waiting[d][0], Some(d))
    ensures var m := Scheduled(s, busy + {d}, s.waiting[d][0], Some(d));
            && CanWake(m, busy, d) && Wake(m, busy, d) == Wake(s, busy, d) && TotalWork(m) < TotalWork(s)
            && m.waiting[d] == s.waiting[d][1..]
  {
    hide Inv, OnlyOpen, TotalWork, SameLists, Grows;
    assert busy + {d} - {d} == busy;
    DetachKeeps(s, busy, d);
    var m := Schedule(Detach(s, d), busy + {d}, s.waiting[d][0]);
    WokenKeeps(s, m, busy, d);
  }

  lemma WakeStops(s: Pool, busy: set<nat>, d: nat)
    requires CanWake(s, busy, d) && s.waiting[d] == []
    ensures Wake(s, busy, d) == s
  {}
}
