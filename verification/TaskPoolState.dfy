/** The state of the task pool of src/common/src/task_pool.c, and what every step under its mutex keeps. The pool has
    worker threads, its groups are never blocked, and all groups share one numbering of dependencies; a stand-alone task
    is one with no inputs and no output. */
module TaskPoolState {
  import opened Wrappers

  datatype TaskState = New | Waiting | Ready | Running | Done

  /** Where a part of a task is: in the queue, with a worker, or back from one. */
  datatype Stage = Queued | Active | Returned

  datatype Slice = Slice(start: nat, count: nat, stage: Stage)

  /** `at` is the position in `inputs` of the lowest unmet dependency. `parts`, `completing` (the completion function
      has been called and has not returned) and `completions` (how often it was called) are history. */
  datatype Task = Task(inputs: seq<nat>, output: Option<nat>, hasFunction: bool, hasCompletion: bool, total: nat,
                       completed: nat, active: nat, state: TaskState, at: nat, value: int,
                       parts: seq<Slice>, completing: bool, completions: nat)
  {
    /** A task that only connects its inputs to its output. */
    predicate IsNull() { !hasFunction && !hasCompletion }
  }

  /** An entry of the ready queue: part number `index` of a task. */
  datatype Part = Part(task: nat, index: nat, start: nat, count: nat)

  /** `waiting` holds a list of tasks for each dependency, head first; `met` the values of the dependencies that are
      met; `external` those that were met by the caller. */
  datatype Pool = Pool(threads: nat, tasks: seq<Task>, pending: int, met: map<nat, int>, waiting: seq<seq<nat>>,
                       ready: seq<Part>, external: map<nat, int>)

  /** taskLowestUnmetDependency, from input i on. */
  function FirstUnmet(inputs: seq<nat>, met: map<nat, int>, i: nat): (r: nat)
    requires i <= |inputs|
    ensures i <= r <= |inputs|
    ensures forall k :: i <= k < r ==> inputs[k] in met
    ensures r < |inputs| ==> inputs[r] !in met
    decreases |inputs| - i
  {
    if i < |inputs| && inputs[i] in met then FirstUnmet(inputs, met, i + 1) else i
  }

  // -- Parts of a task --------------------------------------------------------------------------

  /** The parts cut [0, total) into consecutive pieces. */
  ghost predicate Cuts(parts: seq<Slice>, total: nat) {
    && |parts| > 0 && parts[0].start == 0 && parts[|parts| - 1].start + parts[|parts| - 1].count == total
    && (forall j :: 0 <= j < |parts| ==> parts[j].count > 0)
    && (forall j :: 0 < j < |parts| ==> parts[j].start == parts[j - 1].start + parts[j - 1].count)
  }

  /** What a part adds to the iterations completed, and to the parts active. */
  ghost function Given(p: Slice): nat { if p.stage == Returned then p.count else 0 }

  ghost function Held(p: Slice): nat { if p.stage == Active then 1 else 0 }

  ghost function ReturnedSum(parts: seq<Slice>, n: nat): nat
    requires n <= |parts|
  {
    if n == 0 then 0
    else ReturnedSum(parts, n - 1) + Given(parts[n - 1])
  }

  ghost function ActiveCount(parts: seq<Slice>, n: nat): nat
    requires n <= |parts|
  {
    if n == 0 then 0 else ActiveCount(parts, n - 1) + Held(parts[n - 1])
  }

  ghost predicate AllReturned(parts: seq<Slice>) { forall j :: 0 <= j < |parts| ==> parts[j].stage == Returned }

  /** The parts, counters and completion calls of a task, by state. */
  ghost predicate PartsOk(t: Task) {
    && t.total > 0 && (t.completing ==> t.hasCompletion)
    && match t.state
       case New => Untouched(t)
       case Waiting => Untouched(t)
       case Ready => InParts(t) && t.active == 0
       case Running => InParts(t) && t.active > 0
       case Done => t.completed == t.total && t.active == 0 && !t.completing &&
                    if t.IsNull() then t.parts == [] && t.completions == 0
                    else
                      && Cuts(t.parts, t.total) && AllReturned(t.parts)
                      && t.completions == if t.hasCompletion then 1 else 0
  }

  ghost predicate Untouched(t: Task) {
    t.parts == [] && t.completed == 0 && t.active == 0 && !t.completing && t.completions == 0
  }

  ghost predicate InParts(t: Task) {
    && !t.IsNull() && Cuts(t.parts, t.total)
    && t.completed == ReturnedSum(t.parts, |t.parts|) && t.active == ActiveCount(t.parts, |t.parts|)
    && (t.completing <==> t.completed == t.total && t.hasCompletion) && t.completions == if t.completing then 1 else 0
  }

  // -- The invariant ----------------------------------------------------------------------------

  ghost predicate InputsOk(s: Pool, t: Task) {
    && (forall k :: 0 <= k < |t.inputs| ==> t.inputs[k] < |s.waiting|)
    && (t.output.Some? ==> t.output.value < |s.waiting|)
    && match t.state
       case New => true
       case Waiting => t.at < |t.inputs| && forall k :: 0 <= k < t.at ==> t.inputs[k] in s.met
       case _ => InputsMet(s, t)
  }

  ghost predicate InputsMet(s: Pool, t: Task) { forall k :: 0 <= k < |t.inputs| ==> t.inputs[k] in s.met }

  /** Task t belongs on the list of dependency d; d is unmet, or its list is being woken. */
  ghost predicate Waits(s: Pool, busy: set<nat>, d: nat, t: nat) {
    && t < |s.tasks| && s.tasks[t].state == Waiting
    && s.tasks[t].at < |s.tasks[t].inputs| && s.tasks[t].inputs[s.tasks[t].at] == d
    && (d in s.met ==> d in busy)
  }

  ghost predicate ListOk(s: Pool, busy: set<nat>, d: nat)
    requires d < |s.waiting|
  {
    && (forall t :: t in s.waiting[d] ==> Waits(s, busy, d, t))
    && (forall k, l :: 0 <= k < l < |s.waiting[d]| ==> s.waiting[d][k] != s.waiting[d][l])
  }

  ghost predicate Listed(s: Pool, t: nat)
    requires t < |s.tasks|
  {
    var task := s.tasks[t];
    task.state == Waiting ==>
      task.at < |task.inputs| && task.inputs[task.at] < |s.waiting| && t in s.waiting[task.inputs[task.at]]
  }

  ghost predicate ListsOk(s: Pool, busy: set<nat>) {
    && (forall d {:trigger ListOk(s, busy, d)} :: 0 <= d < |s.waiting| ==> ListOk(s, busy, d))
    && (forall t {:trigger Listed(s, t)} :: 0 <= t < |s.tasks| ==> Listed(s, t))
  }

  ghost predicate TasksOk(s: Pool) {
    && (forall t {:trigger s.tasks[t]} :: 0 <= t < |s.tasks| ==> PartsOk(s.tasks[t]))
    && (forall t {:trigger s.tasks[t]} :: 0 <= t < |s.tasks| ==> InputsOk(s, s.tasks[t]))
  }

  /** A queue entry describes a queued part. */
  ghost predicate EntryOk(s: Pool, p: Part) {
    && p.task < |s.tasks| && p.index < |s.tasks[p.task].parts|
    && s.tasks[p.task].parts[p.index] == Slice(p.start, p.count, Queued)
  }

  ghost predicate InQueue(ready: seq<Part>, t: nat, j: nat) {
    exists k :: 0 <= k < |ready| && ready[k].task == t && ready[k].index == j
  }

  ghost predicate QueuedParts(s: Pool, t: nat)
    requires t < |s.tasks|
  {
    forall j {:trigger InQueue(s.ready, t, j)} ::
      0 <= j < |s.tasks[t].parts| && s.tasks[t].parts[j].stage == Queued ==> InQueue(s.ready, t, j)
  }

  ghost predicate EntriesDiffer(ready: seq<Part>) {
    forall k, l :: 0 <= k < l < |ready| ==> ready[k].task != ready[l].task || ready[k].index != ready[l].index
  }

  /** Every queued part is in the queue exactly once. */
  ghost predicate QueueOk(s: Pool) {
    && (forall k {:trigger s.ready[k]} :: 0 <= k < |s.ready| ==> EntryOk(s, s.ready[k]))
    && EntriesDiffer(s.ready)
    && (forall t {:trigger QueuedParts(s, t)} :: 0 <= t < |s.tasks| ==> QueuedParts(s, t))
  }

  /** A task that has finished with output d and value v. */
  ghost predicate Produces(tasks: seq<Task>, t: nat, d: nat) {
    t < |tasks| && tasks[t].state == Done && tasks[t].output == Some(d)
  }

  /** Dependency d was met by the caller, or by a task that is done, with that value. */
  ghost predicate Justified(s: Pool, d: nat)
    requires d in s.met
  {
    || (d in s.external && s.external[d] == s.met[d])
    || exists t: nat :: Produces(s.tasks, t, d) && s.tasks[t].value == s.met[d]
  }

  ghost predicate OutputMet(s: Pool, t: Task) { t.state == Done && t.output.Some? ==> t.output.value in s.met }

  ghost predicate MetOk(s: Pool) {
    && (forall d :: d in s.met ==> d < |s.waiting|)
    && (forall d {:trigger Justified(s, d)} :: d in s.met ==> Justified(s, d))
    && (forall t {:trigger s.tasks[t]} :: 0 <= t < |s.tasks| ==> OutputMet(s, s.tasks[t]))
  }

  ghost function NotDone(tasks: seq<Task>, n: nat): nat
    requires n <= |tasks|
  {
    if n == 0 then 0 else NotDone(tasks, n - 1) + Left(tasks[n - 1])
  }

  ghost function Left(t: Task): nat { if t.state == Done then 0 else 1 }

  /** What holds between the steps of a wake-up, while the lists of the dependencies in `busy` are being emptied. */
  ghost predicate Inv(s: Pool, busy: set<nat>) {
    && s.threads > 0 && (forall d :: d in busy ==> d in s.met)
    && ListsOk(s, busy) && TasksOk(s) && QueueOk(s) && MetOk(s)
    && s.pending == NotDone(s.tasks, |s.tasks|)
  }

  // -- What a wake-up leaves alone --------------------------------------------------------------

  /** A task may be scheduled, readied and, if it is null, done, which gives no value. */
  ghost predicate TaskGrows(t: Task, r: Task) {
    && r.inputs == t.inputs && r.output == t.output && r.total == t.total
    && r.hasFunction == t.hasFunction && r.hasCompletion == t.hasCompletion
    && (t.state != New && t.state != Waiting ==> r == t) && NewAreQueued(t.parts, r.parts)
    && (r.state == Done && r != t ==> r.value == 0)
  }

  /** The parts of q that p does not have are queued. */
  ghost predicate NewAreQueued(p: seq<Slice>, q: seq<Slice>) {
    forall j :: 0 <= j < |q| && q[j].stage != Queued ==> j < |p| && q[j] == p[j]
  }

  /** Only tasks that had not been started change; what is met stays met; the queue only grows at its end. */
  ghost predicate Grows(s: Pool, r: Pool) {
    && r.threads == s.threads && |r.waiting| == |s.waiting| && r.external == s.external
    && |r.tasks| == |s.tasks|
    && (forall t {:trigger r.tasks[t]} {:trigger s.tasks[t]} :: 0 <= t < |s.tasks| ==>
        TaskGrows(s.tasks[t], r.tasks[t]))
    && (forall d :: d in s.met ==> d in r.met && r.met[d] == s.met[d])
    && s.ready <= r.ready
  }

  lemma GrowsTrans(s: Pool, m: Pool, r: Pool)
    requires Grows(s, m) && Grows(m, r)
    ensures Grows(s, r)
  {
    forall t {:trigger r.tasks[t]} | 0 <= t < |s.tasks| ensures TaskGrows(s.tasks[t], r.tasks[t]) {
      assert TaskGrows(s.tasks[t], m.tasks[t]) && TaskGrows(m.tasks[t], r.tasks[t]);
    }
  }

  // -- Sums over the tasks ----------------------------------------------------------------------

  /** How far the waiting tasks are from the ends of their inputs; what makes a wake-up terminate. */
  ghost function Work(tasks: seq<Task>, n: nat): nat
    requires n <= |tasks|
  {
    if n == 0 then 0 else Work(tasks, n - 1) + Distance(tasks[n - 1])
  }

  ghost function Distance(t: Task): nat {
    if t.state == Waiting && t.at < |t.inputs| then |t.inputs| - t.at else 0
  }

  lemma {:induction false} WorkUpdate(tasks: seq<Task>, t: nat, task: Task, n: nat)
    requires t < |tasks| && n <= |tasks|
    ensures Work(tasks[t := task], n) == Work(tasks, n) + if t < n then Distance(task) - Distance(tasks[t]) else 0
  {
    if n > 0 { WorkUpdate(tasks, t, task, n - 1); }
  }

  lemma {:induction false} NotDoneUpdate(tasks: seq<Task>, t: nat, task: Task, n: nat)
    requires t < |tasks| && n <= |tasks|
    ensures NotDone(tasks[t := task], n) == NotDone(tasks, n) + if t < n then Left(task) - Left(tasks[t]) else 0
  {
    if n > 0 { NotDoneUpdate(tasks, t, task, n - 1); }
  }

  lemma {:induction false} SumsAppend(tasks: seq<Task>, task: Task, n: nat)
    requires n <= |tasks|
    ensures NotDone(tasks + [task], n) == NotDone(tasks, n)
  {
    if n > 0 { SumsAppend(tasks, task, n - 1); }
  }
}
