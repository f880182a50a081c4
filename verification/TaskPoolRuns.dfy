/** Every interleaving of callers and workers: runs of the task pool's operations, and what they promise. */
module TaskPoolRuns {
  import opened Wrappers
  import opened TaskPoolState
  import opened TaskPoolSteps
  import opened TaskPoolWakeUp
  import opened TaskPoolOperations

  /** One hold of the mutex, by whichever thread gets it next. */
  datatype Step =
    | NewDependency
    | NewTask(inputs: seq<nat>, output: Option<nat>, hasFunction: bool, hasCompletion: bool, total: nat)
    | Defer(parent: nat, withCompletion: bool, size: nat)
    | Meet(dependency: nat, value: int)
    | Start
    | End(task: nat, index: nat, result: int)
    | EndOfCompletion(task: nat, result: int)

  ghost predicate Legal(s: Pool, step: Step) {
    match step
    case NewDependency => true
    case NewTask(inputs, output, _, _, total) => CanAdd(s, inputs, output, total)
    case Defer(parent, _, size) => InFunction(s, parent) && size > 0
    case Meet(d, _) => d < |s.waiting|
    case Start => |s.ready| > 0
    case End(t, j, _) => IsActive(s, t, j)
    case EndOfCompletion(t, _) => t < |s.tasks| && s.tasks[t].completing
  }

  ghost function Next(s: Pool, step: Step): (r: Pool)
    requires PoolOk(s) && Legal(s, step)
    ensures PoolOk(r)
  {
    hide PoolOk, CanAdd;
    match step
    case NewDependency => AddDependencyOk(s); AddDependency(s)
    case NewTask(inputs, output, hasFunction, hasCompletion, total) =>
      AddTask(s, inputs, output, hasFunction, hasCompletion, total)
    case Defer(parent, hasCompletion, size) => DeferTask(s, parent, hasCompletion, size)
    case Meet(d, v) => MeetDependency(s, d, v)
    case Start => StartPartOk(s); StartPart(s)
    case End(t, j, v) => EndPart(s, t, j, v)
    case EndOfCompletion(t, v) => EndCompletion(s, t, v)
  }

  ghost predicate LegalRun(s: Pool, steps: seq<Step>)
    requires PoolOk(s)
    decreases |steps|
  {
    steps == [] || (Legal(s, steps[0]) && LegalRun(Next(s, steps[0]), steps[1..]))
  }

  ghost function Run(s: Pool, steps: seq<Step>): (r: Pool)
    requires PoolOk(s) && LegalRun(s, steps)
    ensures PoolOk(r)
    decreases |steps|
  {
    if steps == [] then s else Run(Next(s, steps[0]), steps[1..])
  }

  /** State s is reached from an empty pool. */
  ghost predicate Reached(threads: nat, steps: seq<Step>, s: Pool) {
    threads > 0 && PoolOk(Initial(threads)) && LegalRun(Initial(threads), steps) && s == Run(Initial(threads), steps)
  }

  // -- Waiting ----------------------------------------------------------------------------------

  /** Number of places of task t on the list of dependency d. */
  ghost function Places(list: seq<nat>, t: nat): nat { multiset(list)[t] }

  /** Main result on waiting: a task waits exactly while some input is unmet; it is then on the list of its first unmet
      input, once, and on no other; a task that does not wait is on none. */
  lemma WaitsOnFirstUnmet(threads: nat, steps: seq<Step>, s: Pool, t: nat)
    requires Reached(threads, steps, s) && t < |s.tasks|
    ensures s.tasks[t].state == Waiting <==> !InputsMet(s, s.tasks[t])
    ensures forall d :: 0 <= d < |s.waiting| ==>
      var f := FirstUnmet(s.tasks[t].inputs, s.met, 0);
      Places(s.waiting[d], t) == if f < |s.tasks[t].inputs| && s.tasks[t].inputs[f] == d then 1 else 0
  {
    var task := s.tasks[t];
    var f := FirstUnmet(task.inputs, s.met, 0);
    assert InputsOk(s, task) && Listed(s, t) && !Open(task);
    if task.state == Waiting {
      assert ListOk(s, {}, task.inputs[task.at]);
      assert Waits(s, {}, task.inputs[task.at], t);
      assert f == task.at;
    }
    forall d | 0 <= d < |s.waiting|
      ensures Places(s.waiting[d], t) == if f < |task.inputs| && task.inputs[f] == d then 1 else 0
    {
      assert ListOk(s, {}, d);
      if t in s.waiting[d] { assert Waits(s, {}, d, t); OncePlaced(s.waiting[d], t); }
    }
  }

  lemma OncePlaced(list: seq<nat>, t: nat)
    requires t in list && forall k, l :: 0 <= k < l < |list| ==> list[k] != list[l]
    ensures multiset(list)[t] == 1
  {
    var k :| 0 <= k < |list| && list[k] == t;
    assert list == list[..k] + [t] + list[k + 1..];
    assert t !in list[..k] && t !in list[k + 1..];
  }

  /** No part of a task exists, so none can be run, before all its inputs are met. */
  lemma InputsBeforeParts(threads: nat, steps: seq<Step>, s: Pool, t: nat)
    requires Reached(threads, steps, s) && t < |s.tasks|
    ensures s.tasks[t].parts != [] || s.tasks[t].state == Done ==> InputsMet(s, s.tasks[t])
  {
    assert PartsOk(s.tasks[t]) && InputsOk(s, s.tasks[t]);
  }

  // -- Counting, and nothing forgotten ----------------------------------------------------------

  ghost function Unfinished(tasks: seq<Task>, n: nat): set<nat>
    requires n <= |tasks|
  {
    set t: nat | t < n && tasks[t].state != Done
  }

  lemma {:induction false} NotDoneIsSize(tasks: seq<Task>, n: nat)
    requires n <= |tasks|
    ensures NotDone(tasks, n) == |Unfinished(tasks, n)|
  {
    if n > 0 {
      NotDoneIsSize(tasks, n - 1);
      var before := Unfinished(tasks, n - 1);
      assert n - 1 !in before;
      assert Unfinished(tasks, n) == if tasks[n - 1].state != Done then before + {n - 1} else before;
    }
  }

  /** pendingTaskCount is the number of tasks that are not done. */
  lemma PendingIsNotDone(threads: nat, steps: seq<Step>, s: Pool)
    requires Reached(threads, steps, s)
    ensures s.pending == |Unfinished(s.tasks, |s.tasks|)|
  {
    NotDoneIsSize(s.tasks, |s.tasks|);
  }

  /** Nothing is queued, and no worker is inside a task or completion function. */
  ghost predicate Idle(s: Pool) {
    && s.ready == []
    && forall t {:trigger s.tasks[t]} :: 0 <= t < |s.tasks| ==>
         s.tasks[t].active == 0 && !s.tasks[t].completing
  }

  lemma NotQueued(s: Pool, t: nat, j: nat)
    requires t < |s.tasks| && j < |s.tasks[t].parts| && QueuedParts(s, t) && s.ready == []
    ensures s.tasks[t].parts[j].stage != Queued
  {
    assert !InQueue(s.ready, t, j);
  }

  /** No task is lost: when the workers have nothing to do, every task is done or waits for an input that is unmet. */
  lemma IdleMeansWaiting(threads: nat, steps: seq<Step>, s: Pool, t: nat)
    requires Reached(threads, steps, s) && Idle(s) && t < |s.tasks|
    ensures s.tasks[t].state == Done || (s.tasks[t].state == Waiting && !InputsMet(s, s.tasks[t]))
  {
    var task := s.tasks[t];
    assert PartsOk(task) && InputsOk(s, task) && !Open(task) && QueuedParts(s, t) && Listed(s, t);
    if task.state == Waiting {
      assert ListOk(s, {}, task.inputs[task.at]);
      assert Waits(s, {}, task.inputs[task.at], t);
    } else if task.state == Ready {
      if j :| 0 <= j < |task.parts| && task.parts[j].stage == Queued { NotQueued(s, t, j); }
      if j :| 0 <= j < |task.parts| && task.parts[j].stage == Active { ActivePositive(task.parts, |task.parts|, j); }
      CompletedIff(task.parts, task.total);
    }
  }

  /** So a pool whose tasks' inputs are all met runs dry only when it is done, which is what ldcTaskPoolWait waits
      for. */
  lemma IdleAndMetIsDone(threads: nat, steps: seq<Step>, s: Pool)
    requires Reached(threads, steps, s) && Idle(s) && forall t :: 0 <= t < |s.tasks| ==> InputsMet(s, s.tasks[t])
    ensures s.pending == 0
  {
    PendingIsNotDone(threads, steps, s);
    forall t: nat | t < |s.tasks| ensures s.tasks[t].state == Done { IdleMeansWaiting(threads, steps, s, t); }
    assert Unfinished(s.tasks, |s.tasks|) == {};
  }

  // -- A step, and what it sets off --------------------------------------------------------------

  /** What a step itself does; the wake-up it sets off comes after. */
  ghost function Opening(s: Pool, step: Step): Pool
    requires PoolOk(s) && Legal(s, step)
  {
    match step
    case NewDependency => AddDependency(s)
    case NewTask(inputs, output, hasFunction, hasCompletion, total) =>
      Append(s, FreshTask(inputs, output, hasFunction, hasCompletion, total))
    case Defer(parent, hasCompletion, size) =>
      Append(TakeOutput(s, parent), Child(s, parent, hasCompletion, size))
    case Meet(d, v) => if d in s.met then s else MarkMet(s, d, v)
    case Start => StartPartOk(s); StartPart(s)
    case End(t, j, v) => ReturnAndComplete(s, t, j, v)
    case EndOfCompletion(t, v) => Complete(s, t, v)
  }

  ghost function ReturnAndComplete(s: Pool, t: nat, j: nat, v: int): Pool
    requires PoolOk(s) && IsActive(s, t, j)
  {
    EndPartKeeps(s, t, j);
    var m := SetTask(s, t, Returning(s.tasks[t], j));
    if Open(m.tasks[t]) then Complete(m, t, v) else m
  }

  /** The task an opening changes, if there is one. */
  ghost function Changed(s: Pool, step: Step): nat
    requires Legal(s, step)
  {
    match step
    case Defer(parent, _, _) => parent
    case Start => s.ready[0].task
    case End(t, _, _) => t
    case EndOfCompletion(t, _) => t
    case _ => |s.tasks|
  }

  ghost predicate OneChanged(s: Pool, x: nat, r: Pool) {
    && |s.tasks| <= |r.tasks|
    && (forall t {:trigger s.tasks[t]} {:trigger r.tasks[t]} :: 0 <= t < |s.tasks| && t != x ==>
         r.tasks[t] == s.tasks[t])
    && (forall t {:trigger r.tasks[t]} :: |s.tasks| <= t < |r.tasks| ==> Untouched(r.tasks[t]))
    && (forall d :: d in s.met ==> d in r.met && r.met[d] == s.met[d])
  }

  lemma OpeningChanges(s: Pool, step: Step)
    requires PoolOk(s) && Legal(s, step)
    ensures OneChanged(s, Changed(s, step), Opening(s, step))
    ensures forall d :: d in Opening(s, step).external ==> d in s.external || (step.Meet? && step.dependency == d)
    ensures |Opening(s, step).tasks| == |s.tasks| + if step.NewTask? || step.Defer? then 1 else 0
  {
    hide PoolOk, Inv, Returning, OnlyOpen;
    if step.Start? { StartPartOk(s); }
    if step.End? { EndPartKeeps(s, step.task, step.index); }
  }

  lemma TaskFacts(s: Pool, t: nat)
    requires PoolOk(s) && t < |s.tasks|
    ensures PartsOk(s.tasks[t]) && !Open(s.tasks[t])
  {}

  /** Every step is its opening and then changes only tasks that have not been started. */
  lemma StepGrows(s: Pool, step: Step)
    requires PoolOk(s) && Legal(s, step)
    ensures Grows(Opening(s, step), Next(s, step))
  {
    hide PoolOk, CanAdd, Complete, Returning, SetTask, StartPart;
    if step.End? { EndPartKeeps(s, step.task, step.index); }
  }

  ghost predicate InProgress(t: Task) { t.state != New && t.state != Waiting }

  ghost predicate UntouchedUnlessStarted(s: Pool) {
    forall t {:trigger s.tasks[t]} :: 0 <= t < |s.tasks| ==> InProgress(s.tasks[t]) || Untouched(s.tasks[t])
  }

  lemma OpeningUntouched(s: Pool, step: Step)
    requires PoolOk(s) && Legal(s, step)
    ensures UntouchedUnlessStarted(Opening(s, step))
  {
    var x, r := Changed(s, step), Opening(s, step);
    OpeningChanges(s, step);
    if x < |s.tasks| { ChangedTask(s, step); }
    hide PoolOk, Legal, Opening, Changed;
    forall t {:trigger r.tasks[t]} | 0 <= t < |r.tasks| ensures InProgress(r.tasks[t]) || Untouched(r.tasks[t]) {
      if t < |s.tasks| { TaskFacts(s, t); }
    }
  }

  // -- What no step undoes ----------------------------------------------------------------------

  function Rank(stage: Stage): nat {
    match stage
    case Queued => 0
    case Active => 1
    case Returned => 2
  }

  /** Once cut, the parts stay as they are, and each only moves on from the queue to a worker and back. */
  ghost predicate PartsMoveOn(p: seq<Slice>, q: seq<Slice>) {
    p != [] ==>
      && |q| == |p|
      && forall j :: 0 <= j < |p| ==>
           q[j].start == p[j].start && q[j].count == p[j].count && Rank(p[j].stage) <= Rank(q[j].stage)
  }

  ghost predicate TaskStable(t: Task, r: Task) {
    && (t.state == Done ==> r == t) && t.completions <= r.completions && PartsMoveOn(t.parts, r.parts)
    && r.inputs == t.inputs && r.total == t.total
    && r.hasFunction == t.hasFunction && r.hasCompletion == t.hasCompletion
  }

  /** Done tasks and met dependencies stay as they are, a task keeps its parts, each of which only moves on, and calls
      of completion functions are never forgotten. */
  ghost predicate Stable(s: Pool, r: Pool) {
    && |s.tasks| <= |r.tasks|
    && (forall t {:trigger s.tasks[t]} {:trigger r.tasks[t]} :: 0 <= t < |s.tasks| ==>
        TaskStable(s.tasks[t], r.tasks[t]))
    && (forall d :: d in s.met ==> d in r.met && r.met[d] == s.met[d])
  }

  lemma OneChangedStable(s: Pool, x: nat, r: Pool)
    requires OneChanged(s, x, r) && (x < |s.tasks| ==> TaskStable(s.tasks[x], r.tasks[x]))
    ensures Stable(s, r)
  {}

  lemma OpeningStable(s: Pool, step: Step)
    requires PoolOk(s) && Legal(s, step)
    ensures Stable(s, Opening(s, step))
  {
    OpeningChanges(s, step);
    var x, r := Changed(s, step), Opening(s, step);
    if x < |s.tasks| { ChangedTask(s, step); }
    hide PoolOk, Legal, Opening, OneChanged, Stable, TaskStable;
    OneChangedStable(s, x, r);
  }

  /** A task an opening changes has been started. It keeps its output, unless it defers to a child, and of its parts
      only the one that is taken leaves the queue. */
  lemma ChangedTask(s: Pool, step: Step)
    requires PoolOk(s) && Legal(s, step) && Changed(s, step) < |s.tasks|
    ensures Changed(s, step) < |Opening(s, step).tasks|
    ensures var t, r := s.tasks[Changed(s, step)], Opening(s, step).tasks[Changed(s, step)];
            && TaskStable(t, r) && InProgress(t) && r.output == (if step.Defer? then None else t.output)
            && forall j :: 0 <= j < |r.parts| ==>
                 (r.parts[j].stage == Queued <==> t.parts[j].stage == Queued && !Takes(s, step, Changed(s, step), j))
  {
    hide PoolOk, OnlyOpen, Inv, ReturnAndComplete, Returning, Cuts, ReturnedSum, ActiveCount;
    TaskFacts(s, Changed(s, step));
    match step
    case Start => StartPartOk(s);
    case End(t, j, v) => EndedTask(s, t, j, v);
    case EndOfCompletion(t, v) =>
    case Defer(parent, _, _) =>
  }

  lemma EndedTask(s: Pool, t: nat, j: nat, v: int)
    requires PoolOk(s) && IsActive(s, t, j)
    ensures var r := ReturnAndComplete(s, t, j, v);
            && t < |r.tasks| && TaskStable(s.tasks[t], r.tasks[t]) && InProgress(s.tasks[t])
            && r.tasks[t].output == s.tasks[t].output
            && forall i :: 0 <= i < |r.tasks[t].parts| ==>
                 (r.tasks[t].parts[i].stage == Queued <==> s.tasks[t].parts[i].stage == Queued)
  {
    hide PoolOk, OnlyOpen, Inv, PartsOk, Open, Settled;
    TaskFacts(s, t);
    EndPartKeeps(s, t, j);
    ReturningOk(s.tasks[t], j);
  }

  lemma GrowsStable(s: Pool, m: Pool, r: Pool)
    requires Stable(s, m) && Grows(m, r)
    requires UntouchedUnlessStarted(m)
    ensures Stable(s, r)
  {
    forall t {:trigger r.tasks[t]} | 0 <= t < |s.tasks| ensures TaskStable(s.tasks[t], r.tasks[t]) {
      assert TaskStable(s.tasks[t], m.tasks[t]) && TaskGrows(m.tasks[t], r.tasks[t]);
    }
  }

  lemma StepStable(s: Pool, step: Step)
    requires PoolOk(s) && Legal(s, step)
    ensures Stable(s, Next(s, step))
  {
    OpeningStable(s, step);
    OpeningUntouched(s, step);
    StepGrows(s, step);
    hide Stable, Grows, PoolOk, Legal, Opening, Next;
    GrowsStable(s, Opening(s, step), Next(s, step));
  }

  /** However a run goes on, a task that is done stays done, a task keeps its parts, a met dependency keeps its value,
      and the count of calls of a completion function, which never exceeds one, never goes back. */
  lemma {:induction false} RunStable(s: Pool, steps: seq<Step>)
    requires PoolOk(s) && LegalRun(s, steps)
    ensures Stable(s, Run(s, steps))
    decreases |steps|
  {
    hide PoolOk, Legal, Next;
    if steps != [] {
      StepStable(s, steps[0]);
      RunStable(Next(s, steps[0]), steps[1..]);
    }
  }

  // -- Parts ------------------------------------------------------------------------------------

  /** Part j of task t has been handed to a worker. */
  ghost predicate Begun(s: Pool, t: nat, j: nat) {
    t < |s.tasks| && j < |s.tasks[t].parts| && s.tasks[t].parts[j].stage != Queued
  }

  /** The step hands part j of task t to a worker. */
  ghost predicate Takes(s: Pool, step: Step, t: nat, j: nat)
    requires Legal(s, step)
  {
    step.Start? && s.ready[0].task == t && s.ready[0].index == j
  }

  /** How often a run hands part j of task t to a worker. */
  ghost function Starts(s: Pool, steps: seq<Step>, t: nat, j: nat): nat
    requires PoolOk(s) && LegalRun(s, steps)
    decreases |steps|
  {
    if steps == [] then 0
    else (if Takes(s, steps[0], t, j) then 1 else 0) + Starts(Next(s, steps[0]), steps[1..], t, j)
  }

  lemma OpeningBegun(s: Pool, step: Step, t: nat, j: nat)
    requires PoolOk(s) && Legal(s, step)
    ensures Begun(Opening(s, step), t, j) <==> Begun(s, t, j) || Takes(s, step, t, j)
    ensures !(Begun(s, t, j) && Takes(s, step, t, j))
  {
    OpeningChanges(s, step);
    if Changed(s, step) < |s.tasks| { ChangedTask(s, step); }
    if step.Start? { StartPartOk(s); }
    hide PoolOk, Opening;
  }

  lemma GrowsBegun(m: Pool, r: Pool, t: nat, j: nat)
    requires Grows(m, r)
    requires UntouchedUnlessStarted(m)
    ensures Begun(r, t, j) <==> Begun(m, t, j)
  {
    if t < |m.tasks| { assert TaskGrows(m.tasks[t], r.tasks[t]); }
  }

  /** A part is begun at the end of a run that it was not begun before exactly if the run hands it out, once. */
  lemma {:induction false} StartedOnce(s: Pool, steps: seq<Step>, t: nat, j: nat)
    requires PoolOk(s) && LegalRun(s, steps)
    ensures Starts(s, steps, t, j) == if !Begun(s, t, j) && Begun(Run(s, steps), t, j) then 1 else 0
    ensures Begun(s, t, j) ==> Begun(Run(s, steps), t, j)
    decreases |steps|
  {
    if steps != [] {
      var r := Next(s, steps[0]);
      OpeningBegun(s, steps[0], t, j);
      OpeningUntouched(s, steps[0]);
      StepGrows(s, steps[0]);
      hide PoolOk, Legal, Next, Opening, Takes, Begun, Grows;
      GrowsBegun(Opening(s, steps[0]), r, t, j);
      StartedOnce(r, steps[1..], t, j);
    }
  }

  predicate Covers(p: Slice, i: int) { p.start <= i < p.start + p.count }

  lemma {:induction false} CutsOrdered(parts: seq<Slice>, total: nat, j: nat, k: nat)
    requires Cuts(parts, total) && j < k < |parts|
    ensures parts[j].start + parts[j].count <= parts[k].start
    decreases k
  {
    if j < k - 1 { CutsOrdered(parts, total, j, k - 1); }
  }

  lemma {:induction false} CutsCover(parts: seq<Slice>, total: nat, i: nat, n: nat)
    requires Cuts(parts, total) && 0 < n <= |parts| && i < parts[n - 1].start + parts[n - 1].count
    ensures exists j :: 0 <= j < n && Covers(parts[j], i)
  {
    if n == 1 || parts[n - 1].start <= i {
      assert Covers(parts[n - 1], i);
    } else {
      CutsCover(parts, total, i, n - 1);
    }
  }

  /** Main result on parts: once a task has been readied, each of its iterations belongs to exactly one part. That part
      is in the queue, once, and the run has not handed it to a worker; or the run has handed it out exactly once. So
      it is when the task is done. */
  lemma EachIterationOnce(threads: nat, steps: seq<Step>, s: Pool, t: nat, i: nat) returns (j: nat)
    requires Reached(threads, steps, s) && t < |s.tasks| && s.tasks[t].parts != [] && i < s.tasks[t].total
    ensures j < |s.tasks[t].parts| && Covers(s.tasks[t].parts[j], i)
    ensures forall k :: 0 <= k < |s.tasks[t].parts| && k != j ==> !Covers(s.tasks[t].parts[k], i)
    ensures Starts(Initial(threads), steps, t, j) == if InQueue(s.ready, t, j) then 0 else 1
    ensures s.tasks[t].state == Done ==> Starts(Initial(threads), steps, t, j) == 1
    ensures s.tasks[t].parts[j].stage == Queued <==> InQueue(s.ready, t, j)
    ensures forall k, l :: 0 <= k < l < |s.ready| ==>
      !(s.ready[k].task == s.ready[l].task == t && s.ready[k].index == s.ready[l].index == j)
  {
    var parts := s.tasks[t].parts;
    assert PartsOk(s.tasks[t]);
    CutsCover(parts, s.tasks[t].total, i, |parts|);
    j :| 0 <= j < |parts| && Covers(parts[j], i);
    forall k | 0 <= k < |parts| && k != j ensures !Covers(parts[k], i) {
      if k < j { CutsOrdered(parts, s.tasks[t].total, k, j); } else { CutsOrdered(parts, s.tasks[t].total, j, k); }
    }
    assert QueuedParts(s, t);
    if k :| 0 <= k < |s.ready| && s.ready[k].task == t && s.ready[k].index == j { assert EntryOk(s, s.ready[k]); }
    StartedOnce(Initial(threads), steps, t, j);
  }

  /** The completion function is called at most once, after all parts have returned, and has been called once (if there
      is one) when a task that is not null is done. */
  lemma CompletionOnce(threads: nat, steps: seq<Step>, s: Pool, t: nat)
    requires Reached(threads, steps, s) && t < |s.tasks|
    ensures s.tasks[t].completions <= 1
    ensures s.tasks[t].completions == 1 ==>
      s.tasks[t].hasCompletion && AllReturned(s.tasks[t].parts) && s.tasks[t].parts != []
    ensures s.tasks[t].state == Done && !s.tasks[t].IsNull() ==>
      AllReturned(s.tasks[t].parts) && Cuts(s.tasks[t].parts, s.tasks[t].total) &&
      (s.tasks[t].hasCompletion <==> s.tasks[t].completions == 1)
  {
    assert PartsOk(s.tasks[t]);
    if s.tasks[t].parts != [] { CompletedIff(s.tasks[t].parts, s.tasks[t].total); }
  }

  // -- Outputs ----------------------------------------------------------------------------------

  /** A dependency that no caller met is met exactly when a task with that output is done, and has that task's value. */
  lemma MetByDoneTask(threads: nat, steps: seq<Step>, s: Pool, d: nat)
    requires Reached(threads, steps, s) && d !in s.external
    ensures d in s.met <==> exists t: nat :: Produces(s.tasks, t, d)
    ensures d in s.met ==> exists t: nat :: Produces(s.tasks, t, d) && s.tasks[t].value == s.met[d]
  {
    if d in s.met { assert Justified(s, d); }
    if t: nat :| Produces(s.tasks, t, d) { assert OutputMet(s, s.tasks[t]); }
  }

  /** Task c, and no other, has output d, and no caller has met d. */
  ghost predicate Sole(s: Pool, d: nat, c: nat) {
    && d !in s.external && c < |s.tasks| && s.tasks[c].output == Some(d)
    && forall t {:trigger s.tasks[t]} :: 0 <= t < |s.tasks| && t != c ==> s.tasks[t].output != Some(d)
  }

  /** The step neither meets d from outside, nor gives it to another task. */
  predicate Leaves(step: Step, d: nat, c: nat) {
    match step
    case NewTask(_, output, _, _, _) => output != Some(d)
    case Defer(parent, _, _) => parent != c
    case Meet(e, _) => e != d
    case _ => true
  }

  lemma GrowsSole(s: Pool, r: Pool, d: nat, c: nat)
    requires Grows(s, r) && Sole(s, d, c)
    ensures Sole(r, d, c)
  {
    forall t {:trigger r.tasks[t]} | 0 <= t < |r.tasks| ensures r.tasks[t].output == s.tasks[t].output {
      assert TaskGrows(s.tasks[t], r.tasks[t]);
    }
  }

  lemma StepSole(s: Pool, step: Step, d: nat, c: nat)
    requires PoolOk(s) && Legal(s, step) && Sole(s, d, c) && Leaves(step, d, c)
    ensures Sole(Next(s, step), d, c)
  {
    hide PoolOk, Inv, Grows, CanAdd, OnlyOpen, TaskStable, Returning;
    StepGrows(s, step);
    OpeningChanges(s, step);
    if Changed(s, step) < |s.tasks| { ChangedTask(s, step); }
    assert Sole(Opening(s, step), d, c);
    GrowsSole(Opening(s, step), Next(s, step), d, c);
  }

  /** A deferred task becomes the only producer of its parent's output. */
  lemma DeferMovesOutput(s: Pool, parent: nat, hasCompletion: bool, total: nat, d: nat)
    requires PoolOk(s) && InFunction(s, parent) && total > 0 && Sole(s, d, parent)
    ensures Sole(DeferTask(s, parent, hasCompletion, total), d, |s.tasks|)
  {
    hide PoolOk, Grows;
    GrowsSole(Append(TakeOutput(s, parent), Child(s, parent, hasCompletion, total)),
              DeferTask(s, parent, hasCompletion, total), d, |s.tasks|);
  }

  lemma {:induction false} RunSole(s: Pool, steps: seq<Step>, d: nat, c: nat)
    requires PoolOk(s) && LegalRun(s, steps) && Sole(s, d, c)
    requires forall i :: 0 <= i < |steps| ==> Leaves(steps[i], d, c)
    ensures Sole(Run(s, steps), d, c)
    decreases |steps|
  {
    hide PoolOk, Legal, Sole, Leaves;
    if steps != [] {
      StepSole(s, steps[0], d, c);
      RunSole(Next(s, steps[0]), steps[1..], d, c);
    }
  }

  /** Main result on deferral: when a parent in its function defers to a child, then in whatever way the run goes on,
      the parent's output is met exactly when the child is done, and with the child's value. */
  lemma DeferredOutput(s: Pool, parent: nat, hasCompletion: bool, total: nat, d: nat, steps: seq<Step>)
    requires PoolOk(s) && InFunction(s, parent) && total > 0 && Sole(s, d, parent)
    requires LegalRun(DeferTask(s, parent, hasCompletion, total), steps)
    requires forall i :: 0 <= i < |steps| ==> Leaves(steps[i], d, |s.tasks|)
    ensures var f := Run(DeferTask(s, parent, hasCompletion, total), steps);
            && |s.tasks| < |f.tasks|
            && (d in f.met <==> f.tasks[|s.tasks|].state == Done)
            && (d in f.met ==> f.met[d] == f.tasks[|s.tasks|].value)
  {
    var r := DeferTask(s, parent, hasCompletion, total);
    DeferMovesOutput(s, parent, hasCompletion, total, d);
    RunSole(r, steps, d, |s.tasks|);
    var f := Run(r, steps);
    if d in f.met { assert Justified(f, d); }
    assert OutputMet(f, f.tasks[|s.tasks|]);
  }
}
