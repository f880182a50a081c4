/** The operations of the task pool, each as one step taken under its mutex by a caller or a worker, and the invariant
    through each. */
module TaskPoolOperations {
  import opened Wrappers
  import opened TaskPoolState
  import opened TaskPoolSteps
  import opened TaskPoolWakeUp

  /** What holds whenever the mutex is free. */
  ghost predicate PoolOk(s: Pool) { Inv(s, {}) && Settled(s) }

  function Initial(threads: nat): Pool { Pool(threads, [], 0, map[], [], [], map[]) }

  // -- ldcTaskDependencyAdd ---------------------------------------------------------------------

  function AddDependency(s: Pool): Pool { s.(waiting := s.waiting + [[]]) }

  lemma AddDependencyOk(s: Pool)
    requires PoolOk(s)
    ensures PoolOk(AddDependency(s)) && |s.waiting| !in s.met
  {
    var r := AddDependency(s);
    forall e | 0 <= e < |r.waiting| ensures ListOk(r, {}, e) {
      if e < |s.waiting| {
        assert ListOk(s, {}, e);
        assert forall x :: x in s.waiting[e] ==> Waits(s, {}, e, x) && Waits(r, {}, e, x);
      }
    }
    forall x | 0 <= x < |r.tasks| ensures Listed(r, x) { assert Listed(s, x); }
    forall t {:trigger r.tasks[t]} | 0 <= t < |r.tasks| ensures InputsOk(r, r.tasks[t]) {
      assert InputsOk(s, s.tasks[t]);
    }
    forall k {:trigger r.ready[k]} | 0 <= k < |r.ready| ensures EntryOk(r, r.ready[k]) {
      assert EntryOk(s, s.ready[k]);
    }
    forall x | 0 <= x < |r.tasks| ensures QueuedParts(r, x) { assert QueuedParts(s, x); }
    forall d | d in r.met ensures Justified(r, d) { assert Justified(s, d); }
  }

  // -- ldcTaskDependencyMet ---------------------------------------------------------------------

  function MarkMet(s: Pool, d: nat, v: int): Pool { s.(met := s.met[d := v], external := s.external[d := v]) }

  ghost function MeetDependency(s: Pool, d: nat, v: int): (r: Pool)
    requires PoolOk(s) && d < |s.waiting|
    ensures PoolOk(r) && d in r.met
    ensures if d in s.met then r == s else r.met[d] == v && Grows(MarkMet(s, d, v), r)
  {
    if d in s.met then s
    else MarkMetKeeps(s, d, v); Wake(MarkMet(s, d, v), {}, d)
  }

  lemma MarkMetKeeps(s: Pool, d: nat, v: int)
    requires PoolOk(s) && d < |s.waiting| && d !in s.met
    ensures Inv(MarkMet(s, d, v), {} + {d}) && Settled(MarkMet(s, d, v))
  {
    var r, now := MarkMet(s, d, v), {} + {d};
    forall e | 0 <= e < |r.waiting| ensures ListOk(r, now, e) {
      assert ListOk(s, {}, e);
      assert forall x :: x in s.waiting[e] ==> Waits(s, {}, e, x) && Waits(r, now, e, x);
    }
    forall x | 0 <= x < |r.tasks| ensures Listed(r, x) { assert Listed(s, x); }
    forall k {:trigger r.ready[k]} | 0 <= k < |r.ready| ensures EntryOk(r, r.ready[k]) {
      assert EntryOk(s, s.ready[k]);
    }
    forall x | 0 <= x < |r.tasks| ensures QueuedParts(r, x) { assert QueuedParts(s, x); }
    MarkMetRest(s, d, v);
  }

  lemma MarkMetRest(s: Pool, d: nat, v: int)
    requires Inv(s, {}) && d < |s.waiting| && d !in s.met
    ensures MetOk(MarkMet(s, d, v)) && TasksOk(MarkMet(s, d, v))
  {
    var r := MarkMet(s, d, v);
    forall e | e in r.met ensures Justified(r, e) {
      if e != d { assert Justified(s, e); }
    }
    forall t {:trigger r.tasks[t]} | 0 <= t < |r.tasks| ensures OutputMet(r, r.tasks[t]) && InputsOk(r, r.tasks[t]) {
      assert OutputMet(s, s.tasks[t]) && InputsOk(s, s.tasks[t]);
    }
  }

  // -- ldcTaskGroupAdd and ldcTaskPoolAddSlicedDeferred -----------------------------------------

  function FreshTask(inputs: seq<nat>, output: Option<nat>, hasFunction: bool, hasCompletion: bool, total: nat): Task {
    Task(inputs, output, hasFunction, hasCompletion, total, 0, 0, New, 0, 0, [], false, 0)
  }

  function Append(s: Pool, task: Task): Pool { s.(tasks := s.tasks + [task], pending := s.pending + 1) }

  ghost predicate CanAdd(s: Pool, inputs: seq<nat>, output: Option<nat>, total: nat) {
    && total > 0 && (forall k :: 0 <= k < |inputs| ==> inputs[k] < |s.waiting|)
    && (output.Some? ==> output.value < |s.waiting|)
  }

  /** The task is the one that was asked for. */
  predicate IsTask(t: Task, inputs: seq<nat>, output: Option<nat>, hasFunction: bool, hasCompletion: bool, total: nat) {
    && t.inputs == inputs && t.output == output && t.hasFunction == hasFunction && t.hasCompletion == hasCompletion
    && t.total == total
  }

  /** addTask */
  ghost function AddTask(s: Pool, inputs: seq<nat>, output: Option<nat>, hasFunction: bool, hasCompletion: bool,
                         total: nat): (r: Pool)
    requires PoolOk(s) && CanAdd(s, inputs, output, total)
    ensures PoolOk(r) && Grows(Append(s, FreshTask(inputs, output, hasFunction, hasCompletion, total)), r)
    ensures |r.tasks| == |s.tasks| + 1 && IsTask(r.tasks[|s.tasks|], inputs, output, hasFunction, hasCompletion, total)
  {
    var task := FreshTask(inputs, output, hasFunction, hasCompletion, total);
    AppendKeeps(s, task);
    Schedule(Append(s, task), {}, |s.tasks|)
  }

  lemma AppendKeeps(s: Pool, task: Task)
    requires PoolOk(s) && task.state == New && Untouched(task) && CanAdd(s, task.inputs, task.output, task.total)
    ensures Inv(Append(s, task), {}) && OnlyOpen(Append(s, task), |s.tasks|)
  {
    var r := Append(s, task);
    AppendLists(s, task);
    SumsAppend(s.tasks, task, |s.tasks|);
    forall d | d in r.met ensures Justified(r, d) {
      assert Justified(s, d);
      if x: nat :| Produces(s.tasks, x, d) && s.tasks[x].value == s.met[d] { assert Produces(r.tasks, x, d); }
    }
    forall t {:trigger r.tasks[t]} | 0 <= t < |r.tasks|
      ensures InputsOk(r, r.tasks[t]) && OutputMet(r, r.tasks[t]) && PartsOk(r.tasks[t])
    {
      if t < |s.tasks| { assert InputsOk(s, s.tasks[t]) && OutputMet(s, s.tasks[t]) && PartsOk(s.tasks[t]); }
    }
  }

  lemma AppendLists(s: Pool, task: Task)
    requires Inv(s, {}) && task.state == New && task.parts == []
    ensures ListsOk(Append(s, task), {}) && QueueOk(Append(s, task))
  {
    var r := Append(s, task);
    forall e | 0 <= e < |r.waiting| ensures ListOk(r, {}, e) {
      assert ListOk(s, {}, e);
      assert forall x :: x in s.waiting[e] ==> Waits(s, {}, e, x) && Waits(r, {}, e, x);
    }
    forall x | 0 <= x < |r.tasks| ensures Listed(r, x) { if x < |s.tasks| { assert Listed(s, x); } }
    forall k {:trigger r.ready[k]} | 0 <= k < |r.ready| ensures EntryOk(r, r.ready[k]) {
      assert EntryOk(s, s.ready[k]);
    }
    forall x | 0 <= x < |r.tasks| ensures QueuedParts(r, x) { if x < |s.tasks| { assert QueuedParts(s, x); } }
  }

  /** One of the functions of task t is being run by a worker. */
  predicate InFunction(s: Pool, t: nat) {
    t < |s.tasks| && (s.tasks[t].state == Running || s.tasks[t].completing)
  }

  function TakeOutput(s: Pool, t: nat): Pool
    requires t < |s.tasks|
  {
    SetTask(s, t, s.tasks[t].(output := None))
  }

  lemma TakeOutputKeeps(s: Pool, t: nat)
    requires PoolOk(s) && InFunction(s, t)
    ensures PoolOk(TakeOutput(s, t))
  {
    var r := TakeOutput(s, t);
    assert PartsOk(s.tasks[t]);
    TouchLists(s, {}, t, r.tasks[t]);
    TouchMet(s, t, r.tasks[t]);
    NotDoneUpdate(s.tasks, t, r.tasks[t], |s.tasks|);
    forall k {:trigger r.ready[k]} | 0 <= k < |r.ready| ensures EntryOk(r, r.ready[k]) {
      assert EntryOk(s, s.ready[k]);
    }
    forall x | 0 <= x < |r.tasks| ensures QueuedParts(r, x) { assert QueuedParts(s, x); }
    TakeOutputTasks(s, t);
  }

  lemma TakeOutputTasks(s: Pool, t: nat)
    requires TasksOk(s) && Settled(s) && t < |s.tasks| && s.tasks[t].state != Done
    ensures TasksOk(TakeOutput(s, t)) && Settled(TakeOutput(s, t))
  {
    var r := TakeOutput(s, t);
    forall x {:trigger r.tasks[x]} | 0 <= x < |r.tasks|
      ensures InputsOk(r, r.tasks[x]) && PartsOk(r.tasks[x]) && !Open(r.tasks[x])
    {
      assert InputsOk(s, s.tasks[x]) && PartsOk(s.tasks[x]) && !Open(s.tasks[x]);
    }
  }

  function Child(s: Pool, parent: nat, hasCompletion: bool, total: nat): Task
    requires parent < |s.tasks|
  {
    FreshTask(s.tasks[parent].inputs, s.tasks[parent].output, true, hasCompletion, total)
  }

  /** ldcTaskPoolAddSlicedDeferred from inside a parent: the child takes over the parent's inputs and its output. */
  ghost function DeferTask(s: Pool, parent: nat, hasCompletion: bool, total: nat): (r: Pool)
    requires PoolOk(s) && InFunction(s, parent) && total > 0
    ensures PoolOk(r) && |r.tasks| == |s.tasks| + 1
    ensures r.tasks[parent] == s.tasks[parent].(output := None)
    ensures IsTask(r.tasks[|s.tasks|], s.tasks[parent].inputs, s.tasks[parent].output, true, hasCompletion, total)
    ensures Grows(Append(TakeOutput(s, parent), Child(s, parent, hasCompletion, total)), r)
  {
    TakeOutputKeeps(s, parent);
    assert InputsOk(s, s.tasks[parent]);
    AddTask(TakeOutput(s, parent), s.tasks[parent].inputs, s.tasks[parent].output, true, hasCompletion, total)
  }

  // -- The worker: taking a part, and the two halves of runTask --------------------------------

  function StartPart(s: Pool): Pool
    requires |s.ready| > 0 && s.ready[0].task < |s.tasks| && s.ready[0].index < |s.tasks[s.ready[0].task].parts|
  {
    var p := s.ready[0];
    var task := s.tasks[p.task];
    SetTask(s, p.task, task.(state := Running, active := task.active + 1,
                             parts := task.parts[p.index := task.parts[p.index].(stage := Active)]))
      .(ready := s.ready[1..])
  }

  lemma {:induction false} StageChanged(parts: seq<Slice>, j: nat, stage: Stage, n: nat)
    requires j < |parts| && n <= |parts|
    ensures var r := parts[j := parts[j].(stage := stage)];
            && ReturnedSum(r, n) - ReturnedSum(parts, n) == (if j < n then Given(r[j]) - Given(parts[j]) else 0)
            && ActiveCount(r, n) - ActiveCount(parts, n) == (if j < n then Held(r[j]) - Held(parts[j]) else 0)
  {
    if n > 0 { StageChanged(parts, j, stage, n - 1); }
  }

  lemma CutsKept(parts: seq<Slice>, j: nat, stage: Stage, total: nat)
    requires Cuts(parts, total) && j < |parts|
    ensures Cuts(parts[j := parts[j].(stage := stage)], total)
  {}

  lemma {:induction false} ReturnedBound(parts: seq<Slice>, total: nat, n: nat)
    requires Cuts(parts, total) && n <= |parts|
    ensures ReturnedSum(parts, n) <= if n == 0 then 0 else parts[n - 1].start + parts[n - 1].count
    ensures n > 0 && ReturnedSum(parts, n) == parts[n - 1].start + parts[n - 1].count ==>
            forall j :: 0 <= j < n ==> parts[j].stage == Returned
    ensures n > 0 && (forall j :: 0 <= j < n ==> parts[j].stage == Returned) ==>
            ReturnedSum(parts, n) == parts[n - 1].start + parts[n - 1].count
  {
    if n > 0 { ReturnedBound(parts, total, n - 1); }
  }

  /** A task has been through all its iterations exactly when all its parts have returned. */
  lemma CompletedIff(parts: seq<Slice>, total: nat)
    requires Cuts(parts, total)
    ensures ReturnedSum(parts, |parts|) == total <==> AllReturned(parts)
    ensures ReturnedSum(parts, |parts|) <= total
  {
    ReturnedBound(parts, total, |parts|);
  }

  lemma {:induction false} ActivePositive(parts: seq<Slice>, n: nat, j: nat)
    requires j < n <= |parts| && parts[j].stage == Active
    ensures ActiveCount(parts, n) > 0
  {
    if j < n - 1 { ActivePositive(parts, n - 1, j); }
  }

  lemma {:induction false} ActiveExists(parts: seq<Slice>, n: nat)
    requires n <= |parts| && ActiveCount(parts, n) > 0
    ensures exists j :: 0 <= j < n && parts[j].stage == Active
  {
    if parts[n - 1].stage != Active { ActiveExists(parts, n - 1); }
  }

  lemma StartPartTask(t: Task, j: nat)
    requires PartsOk(t) && j < |t.parts| && t.parts[j].stage == Queued && !Open(t)
    ensures var r := t.(state := Running, active := t.active + 1, parts := t.parts[j := t.parts[j].(stage := Active)]);
            && PartsOk(r) && !Open(r) && (t.state == Ready || t.state == Running)
            && (t.state == Ready <==> t.active == 0)
  {
    hide Cuts, ReturnedSum, ActiveCount;
    StageChanged(t.parts, j, Active, |t.parts|);
    CutsKept(t.parts, j, Active, t.total);
    CompletedIff(t.parts, t.total);
  }

  lemma StartPartQueue(s: Pool)
    requires QueueOk(s) && |s.ready| > 0 && EntryOk(s, s.ready[0])
    ensures QueueOk(StartPart(s))
  {
    var r := StartPart(s);
    forall k {:trigger r.ready[k]} | 0 <= k < |r.ready| ensures EntryOk(r, r.ready[k]) {
      assert EntryOk(s, s.ready[k + 1]);
    }
    forall x | 0 <= x < |r.tasks| ensures QueuedParts(r, x) {
      assert QueuedParts(s, x);
      forall j {:trigger InQueue(r.ready, x, j)} | 0 <= j < |r.tasks[x].parts| && r.tasks[x].parts[j].stage == Queued
        ensures InQueue(r.ready, x, j)
      {
        assert InQueue(s.ready, x, j);
        var k :| 0 <= k < |s.ready| && s.ready[k].task == x && s.ready[k].index == j;
        assert k > 0 && r.ready[k - 1] == s.ready[k];
      }
    }
  }

  /** Replacing a task that is in its parts by one that is, with the queue unchanged. */
  lemma StepTask(s: Pool, t: nat, task: Task)
    requires PoolOk(s) && t < |s.tasks| && (s.tasks[t].state == Ready || s.tasks[t].state == Running)
    requires (task.state == Ready || task.state == Running) && PartsOk(task)
    requires task.inputs == s.tasks[t].inputs && task.output == s.tasks[t].output
    ensures var r := SetTask(s, t, task);
            && ListsOk(r, {}) && MetOk(r) && TasksOk(r) && OnlyOpen(r, t) && NotDone(r.tasks, |r.tasks|) == r.pending
  {
    TouchLists(s, {}, t, task);
    TouchMet(s, t, task);
    NotDoneUpdate(s.tasks, t, task, |s.tasks|);
  }

  /** Taking a part off the queue; the source's assertions about the state hold. */
  lemma StartPartOk(s: Pool)
    requires PoolOk(s) && |s.ready| > 0
    ensures EntryOk(s, s.ready[0]) && PoolOk(StartPart(s))
    ensures var t := s.tasks[s.ready[0].task]; t.state == if t.active == 0 then Ready else Running
  {
    var p := s.ready[0];
    assert EntryOk(s, p);
    var t := s.tasks[p.task];
    assert PartsOk(t) && !Open(t);
    StartPartTask(t, p.index);
    var r := StartPart(s);
    StepTask(s, p.task, r.tasks[p.task]);
    StartPartQueue(s);
    SetReady(SetTask(s, p.task, r.tasks[p.task]), {}, r.ready);
  }

  /** The task after part j has returned; the completion function is called once all have. */
  function Returning(t: Task, j: nat): Task
    requires j < |t.parts| && t.active > 0
  {
    var all := t.completed + t.parts[j].count == t.total;
    t.(active := t.active - 1, state := if t.active == 1 then Ready else Running,
       completed := t.completed + t.parts[j].count, parts := t.parts[j := t.parts[j].(stage := Returned)],
       completing := all && t.hasCompletion,
       completions := if all && t.hasCompletion then t.completions + 1 else t.completions)
  }

  ghost predicate IsActive(s: Pool, t: nat, j: nat) {
    t < |s.tasks| && j < |s.tasks[t].parts| && s.tasks[t].parts[j].stage == Active
  }

  /** The parts and counters of a task after one more part has returned. */
  lemma ReturningParts(t: Task, j: nat)
    requires InParts(t) && j < |t.parts| && t.parts[j].stage == Active
    ensures t.active > 0 && t.completed < t.total
    ensures var r := Returning(t, j);
            && Cuts(r.parts, t.total) && r.completed <= t.total
            && r.completed == ReturnedSum(r.parts, |r.parts|) && r.active == ActiveCount(r.parts, |r.parts|)
            && (r.completed == t.total ==> r.active == 0 && AllReturned(r.parts))
  {
    hide Cuts, ReturnedSum, ActiveCount;
    ActivePositive(t.parts, |t.parts|, j);
    StageChanged(t.parts, j, Returned, |t.parts|);
    CutsKept(t.parts, j, Returned, t.total);
    CompletedIff(t.parts, t.total);
    var r := Returning(t, j);
    CompletedIff(r.parts, t.total);
    if r.active > 0 { ActiveExists(r.parts, |r.parts|); }
  }

  lemma ReturningOk(t: Task, j: nat)
    requires PartsOk(t) && j < |t.parts| && t.parts[j].stage == Active && !Open(t)
    ensures t.state == Running && t.active > 0 && !t.completing
    ensures var r := Returning(t, j);
            && PartsOk(r) && (r.state == Ready || r.state == Running)
            && (Open(r) <==> r.completed == r.total && !r.hasCompletion)
            && (r.completed == r.total ==> r.state == Ready && AllReturned(r.parts))
  {
    hide ReturnedSum, ActiveCount, Cuts;
    ReturningParts(t, j);
  }

  ghost function EndPart(s: Pool, t: nat, j: nat, v: int): (r: Pool)
    requires PoolOk(s) && IsActive(s, t, j)
    ensures PoolOk(r) && s.tasks[t].active > 0
    ensures var m := SetTask(s, t, Returning(s.tasks[t], j));
            if Open(m.tasks[t]) then Grows(Complete(m, t, v), r) else r == m
    ensures if s.tasks[t].completed + s.tasks[t].parts[j].count == s.tasks[t].total && !s.tasks[t].hasCompletion
            then FinishedWith(s, r, t, v) else r.tasks[t].state != Done && r.met == s.met
  {
    hide Inv, Settled, CanComplete, OnlyOpen, IsActive;
    EndPartKeeps(s, t, j);
    var task := Returning(s.tasks[t], j);
    var m := SetTask(s, t, task);
    if Open(task) then Finish(m, {}, t, v) else m
  }

  lemma EndPartQueue(s: Pool, t: nat, j: nat)
    requires QueueOk(s) && IsActive(s, t, j) && s.tasks[t].active > 0
    ensures QueueOk(SetTask(s, t, Returning(s.tasks[t], j)))
  {
    var r := SetTask(s, t, Returning(s.tasks[t], j));
    forall k {:trigger r.ready[k]} | 0 <= k < |r.ready| ensures EntryOk(r, r.ready[k]) {
      assert EntryOk(s, s.ready[k]);
    }
    forall x | 0 <= x < |r.tasks| ensures QueuedParts(r, x) {
      assert QueuedParts(s, x);
      assert forall i :: 0 <= i < |r.tasks[x].parts| && r.tasks[x].parts[i].stage == Queued ==> InQueue(s.ready, x, i);
    }
  }

  lemma EndPartKeeps(s: Pool, t: nat, j: nat)
    requires PoolOk(s) && IsActive(s, t, j)
    ensures s.tasks[t].active > 0
    ensures var m := SetTask(s, t, Returning(s.tasks[t], j));
            && Inv(m, {}) && OnlyOpen(m, t) && (if Open(m.tasks[t]) then CanComplete(m, t) else Settled(m))
  {
    assert PartsOk(s.tasks[t]) && !Open(s.tasks[t]) && InputsOk(s, s.tasks[t]);
    ReturningOk(s.tasks[t], j);
    StepTask(s, t, Returning(s.tasks[t], j));
    EndPartQueue(s, t, j);
  }

  ghost function EndCompletion(s: Pool, t: nat, v: int): (r: Pool)
    requires PoolOk(s) && t < |s.tasks| && s.tasks[t].completing
    ensures PoolOk(r) && Grows(Complete(s, t, v), r) && FinishedWith(s, r, t, v)
  {
    EndCompletionReady(s, t);
    Finish(s, {}, t, v)
  }

  lemma EndCompletionReady(s: Pool, t: nat)
    requires PoolOk(s) && t < |s.tasks| && s.tasks[t].completing
    ensures CanComplete(s, t) && OnlyOpen(s, t)
  {
    assert PartsOk(s.tasks[t]) && InputsOk(s, s.tasks[t]);
    CompletedIff(s.tasks[t].parts, s.tasks[t].total);
    if s.tasks[t].active > 0 { ActiveExists(s.tasks[t].parts, |s.tasks[t].parts|); }
  }
}
